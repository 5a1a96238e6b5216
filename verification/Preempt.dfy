/** What preemption guarantees over whole runs of ThreadSystem. */
module Preempt {
  import opened Common
  import opened Rv32
  import opened ContextSwitch
  import opened ThreadSystem
  import opened ThreadSwitch
  import opened ThreadCreate
  import R = RunQueue

  // ---- Whole runs ----

  ghost predicate CanStep(c: Code, s: Sys, e: Event, s': Sys)
    requires Compiled(c)
  {
    InRing(s) && Enabled(c, s, e) && Step(c, s, e) == Some(s')
  }

  /** A run under any schedule of interrupts, creations and exits. */
  ghost predicate IsPath(c: Code, run: seq<Sys>, events: seq<Event>)
    requires Compiled(c)
  {
    |run| == |events| + 1 && forall i | 0 <= i < |events| :: CanStep(c, run[i], events[i], run[i + 1])
  }

  predicate IsSwitch(e: Event) { e.Timer? || e.Exit? }

  /** What one step does: the invariant stays, nothing is ever stuck, a switch arrives. */
  lemma StepKeepsInv(c: Code, s: Sys, e: Event)
    requires Compiled(c) && Inv(c, s) && Enabled(c, s, e)
    ensures var r := Step(c, s, e);
            && r.Some? && Inv(c, r.value) && (IsSwitch(e) ==> Arrived(r.value))
            && (e.Create? ==> ReturnsThread(s, r.value))
            && (e.Runs? ==> r.value.x == e.x && r.value.mem == e.mem && r.value.pc == e.pc && r.value.st == s.st)
            && r.value.ring == match e { case Runs(_, _, _, _) => s.ring case Spurious(_, _,
                _) => s.ring case Timer(_, _) => s.ring[1..] + [s.ring[0]]
                                         case Create(_, _, _) => s.ring + [s.heap] case Exit(_) => s.ring[1..] }
  {
    hide ReturnsThread, Inv, SwitchTo, OnSpurious, Created, Taken, Away, Compiled, Ready, Fresh;
    match e
    case Runs(_, _, _, _) => RunsKeepsInv(c, s, e);
    case Timer(scause, junk) => TimerSwitches(c, s, scause, junk);
    case Spurious(scause, junk, framed) => SpuriousReturns(c, s, scause, junk, framed);
    case Create(id, fn, arg) =>
      CreateAppends(c, s, id, fn, arg);
      CreatorGetsThread(c, s, id, fn, arg);
    case Exit(junk) => ExitSwitches(c, s, junk);
  }

  /** Once interrupts are on, every thread runs with them on, so a timer interrupt can always be taken. */
  lemma {:induction false} InterruptsStayOn(c: Code, run: seq<Sys>, events: seq<Event>, i: nat)
    requires Compiled(c) && IsPath(c, run, events) && Inv(c, run[0]) && run[0].st.sie && i < |run|
    ensures run[i].st.sie && run[i].st.supervisor
  {
    hide Inv, CanStep, Compiled;
    PathKeepsInv(c, run, events, i);
    SupervisorAlways(c, run[i]);
    if i > 0 {
      InterruptsStayOn(c, run, events, i - 1);
      PathKeepsInv(c, run, events, i - 1);
      assert CanStep(c, run[i - 1], events[i - 1], run[i - 1 + 1]);
      StepStaysOn(c, run[i - 1], events[i - 1], run[i]);
    }
  }

  lemma StepStaysOn(c: Code, s: Sys, e: Event, s': Sys)
    requires Compiled(c) && Inv(c, s) && CanStep(c, s, e, s') && s.st.sie
    ensures s'.st.sie
  {
    StepKeepsInv(c, s, e);
    hide Inv, Compiled, SwitchTo, OnSpurious, Created, Taken, Away, Fresh;
    if e.Spurious? {
      SpuriousReturns(c, s, e.scause, e.junk, e.framed);
    }
  }

  /** The snapshot of a thread changes only when it is interrupted. */
  lemma StepKeepsSnapshots(c: Code, s: Sys, e: Event, s': Sys, t: Word)
    requires Compiled(c) && Inv(c, s) && CanStep(c, s, e, s') && t in s.ring && t in s.parked && t != s.ring[0]
    ensures Inv(c, s') && t in s'.ring && t in s'.parked && s'.parked[t] == s.parked[t] &&
        (s'.ring[0] == t ==> Arrived(s'))
  {
    StepKeepsInv(c, s, e);
    StepParks(c, s, e, s');
    assert InRing(s);
    hide Inv, Step, Enabled, Compiled, Fresh, R.Distinct, Arrived;
    StillWaits(s.ring, t, s.heap);
  }

  lemma StillWaits(ring: seq<Word>, t: Word, u: Word)
    requires t in ring && t != ring[0]
    ensures t in ring[1..] && t in ring[1..] + [ring[0]] && t in ring + [u] && (ring + [u])[0] == ring[0]
  {
    assert ring == [ring[0]] + ring[1..];
  }

  lemma StepParks(c: Code, s: Sys, e: Event, s': Sys)
    requires Compiled(c) && Inv(c, s) && CanStep(c, s, e, s')
    ensures s'.parked == s.parked ||
        (e.Timer? && s.ring[0] in s'.parked && s'.parked == s.parked[s.ring[0] := s'.parked[s.ring[0]]])
                                  || (e.Create? && s.heap !in s.tops &&
                                      s'.parked == s.parked[s.heap := Fresh(c, s.heap, s.nextStack, e.fn, e.arg)])
  {
    hide Inv, SwitchTo, OnSpurious, Created, Taken, Away, Compiled, Ready, Fresh, R.Distinct;
    match e
    case Runs(_, _, _, _) =>
    case Timer(scause, junk) => TimerSwitches(c, s, scause, junk);
    case Spurious(scause, junk, framed) => SpuriousReturns(c, s, scause, junk, framed);
    case Create(id, fn, arg) => CreateAppends(c, s, id, fn, arg);
    case Exit(junk) => ExitSwitches(c, s, junk);
  }

  /** start, once thread_init has run. */
  ghost predicate Init(c: Code, s: Sys, thread0: Word) {
    && 0 < thread0 && Aligned(4, thread0) && thread0 + SIZE <= HEAP_START && s.heap == HEAP_START
    && s.nextStack == MEMORY_TOP - STACK && s.tops == map[thread0 := MEMORY_TOP] && s.ring == [thread0]
    && Load(s.mem, Addr(thread0, NEXT)) == thread0 && Load(s.mem, Addr(thread0, PREV)) == thread0
    && s.x[TP] == thread0 && SpOk(c, s.x[SP], MEMORY_TOP) && s.st.supervisor
  }

  lemma InitHasInv(c: Code, s: Sys, thread0: Word)
    requires Init(c, s, thread0)
    ensures Inv(c, s)
  {
  }

  lemma CanStepKeepsInv(c: Code, s: Sys, e: Event, s': Sys)
    requires Compiled(c) && Inv(c, s) && CanStep(c, s, e, s')
    ensures Inv(c, s')
  {
    StepKeepsInv(c, s, e);
  }

  lemma {:induction false} PathKeepsInv(c: Code, run: seq<Sys>, events: seq<Event>, i: nat)
    requires Compiled(c) && IsPath(c, run, events) && Inv(c, run[0]) && i < |run|
    ensures Inv(c, run[i])
  {
    hide Inv, CanStep, Compiled;
    if i > 0 {
      PathKeepsInv(c, run, events, i - 1);
      assert CanStep(c, run[i - 1], events[i - 1], run[i - 1 + 1]);
      CanStepKeepsInv(c, run[i - 1], events[i - 1], run[i]);
    }
  }

  /** From i to j, thread t waits. */
  ghost predicate Waits(run: seq<Sys>, t: Word, i: nat, j: nat)
    requires i <= j < |run|
  {
    forall k | i <= k < j :: run[k].ring != [] && run[k].ring[0] != t
  }

  /** A thread that waits keeps its snapshot, and continues with it when its turn comes. */
  lemma {:induction false} WaitingKeepsSnapshot(c: Code, run: seq<Sys>, events: seq<Event>, t: Word, i: nat, j: nat)
    requires Compiled(c) && IsPath(c, run, events) && Inv(c, run[0]) && i <= j < |run| && Waits(run, t, i, j)
    requires t in run[i].ring && t in run[i].parked
    ensures t in run[j].ring && t in run[j].parked && run[j].parked[t] == run[i].parked[t]
    ensures i < j && run[j].ring[0] == t ==> Arrived(run[j])
    decreases j
  {
    hide Inv, CanStep, Compiled, Arrived;
    if i < j {
      var k := j - 1;
      WaitingKeepsSnapshot(c, run, events, t, i, k);
      assert CanStep(c, run[k], events[k], run[k + 1]);
      PathKeepsInv(c, run, events, k);
      StepKeepsSnapshots(c, run[k], events[k], run[j], t);
    }
  }

  /** Preemption is transparent. Whatever other threads do, and however many are created, exit
      or are interrupted meanwhile, a thread interrupted in state i continues, when its turn
      next comes, with exactly the pc and the 31 registers it had. */
  lemma PreemptionIsTransparent(c: Code, run: seq<Sys>, events: seq<Event>, i: nat, j: nat)
    requires Compiled(c) && IsPath(c, run, events) && Inv(c, run[0]) && i < j < |run|
    requires events[i].Timer? && run[i].ring != [] && run[j].ring != []
    requires Waits(run, run[i].ring[0], i + 1, j) && run[j].ring[0] == run[i].ring[0]
    ensures run[j].x == run[i].x && run[j].pc == run[i].pc && run[j].st.supervisor && run[j].st.sie
  {
    hide Inv, Compiled, CanStep;
    PathKeepsInv(c, run, events, i);
    PathKeepsInv(c, run, events, j);
    var s, e, t := run[i], events[i], run[i].ring[0];
    assert CanStep(c, s, e, run[i + 1]);
    SupervisorAlways(c, run[j]);
    InterruptSnapshots(c, s, e, run[i + 1]);
    if i + 1 < j {
      WaitingKeepsSnapshot(c, run, events, t, i + 1, j);
    }
    hide IsPath, Waits;
  }

  // ---- Its stack is kept as well ----

  /** No step writes to the stack of a waiting thread, and an interrupt not to the part in use of the stack it
      finds. */
  lemma StepKeepsStack(c: Code, s: Sys, e: Event, s': Sys, t: Word, a: Word)
    requires Compiled(c) && Inv(c, s) && CanStep(c, s, e, s') && t in s.ring
    requires t in s.tops && s.tops[t] - STACK <= a < s.tops[t]
    requires t == s.ring[0] ==> e.Timer? && s.x[SP] <= a
    ensures Load(s'.mem, a) == Load(s.mem, a)
  {
    StackIsNoHead(s, t, a);
    hide Step, OnTimer, OnExit, Compiled, R.Distinct, Ready, Linked, Placed, AllReady, Layout, Away, Created, SwitchTo,
        Departed, Fresh;
    if t == s.ring[0] {
      InterruptWrites(c, s, e, s', a);
      OwnStack(c, s, a);
    } else {
      OthersUntouched(c, s, e, s');
    }
  }

  lemma StackIsNoHead(s: Sys, t: Word, a: Word)
    requires Layout(s) && t in s.tops && s.tops[t] - STACK <= a < s.tops[t]
    ensures Mine(t, s.tops[t], a) && !(t <= a < t + SIZE)
  {
    hide Aligned;
  }

  lemma OwnStack(c: Code, s: Sys, a: Word)
    requires Inv(c, s) && s.x[SP] <= a && !(s.ring[0] <= a < s.ring[0] + SIZE)
    ensures !Touched(c, s.ring[0], s.x[SP], a)
  {
  }

  lemma InterruptWrites(c: Code, s: Sys, e: Event, s': Sys, a: Word)
    requires Compiled(c) && Inv(c, s) && e.Timer? && CanStep(c, s, e, s') && !Touched(c, s.ring[0], s.x[SP], a)
    ensures Load(s'.mem, a) == Load(s.mem, a)
  {
    var cur := s.ring[0];
    hide Away, Compiled, R.Distinct, Linked, AllReady, Placed, Saved, Taken, Layout, Resume, LoadContext, Touched;
    assert cur in s.ring;
    PlacedThread(c, s, cur, s.x[SP]);
    InterruptParks(c, Point(s.x, s.mem), s.pc, e.scause, e.junk);
  }

  lemma OthersUntouched(c: Code, s: Sys, e: Event, s': Sys)
    requires Compiled(c) && Inv(c, s) && CanStep(c, s, e, s')
    ensures OthersKept(s, s'.mem)
  {
    hide R.Distinct, Linked, AllReady, Saved, Taken, Layout, Resume, LoadContext, Touched, Away, Created,
        OthersKept, HeadsKept, Ignored, Placed, SaveContext, LinkOut, ExitCall, Fresh;
    var cur := s.ring[0];
    assert cur in s.ring;
    match e
    case Runs(_, _, _, _) => GuardedIsKept(c, s, e);
    case Timer(scause, junk) =>
      PlacedThread(c, s, cur, s.x[SP]);
      InterruptParks(c, Point(s.x, s.mem), s.pc, scause, junk);
      InterruptIsQuiet(c, s, s'.mem);
    case Spurious(scause, junk, framed) =>
      PlacedThread(c, s, cur, s.x[SP]);
      IgnoredReturns(c, Point(s.x, s.mem), s.pc, scause, junk, framed);
      InterruptIsQuiet(c, s, s'.mem);
    case Create(id, fn, arg) =>
      LayoutAdds(c, s, id, fn, arg);
      CreatedInMemory(c, s, s', id, fn, arg);
    case Exit(junk) => ExitUnlinks(c, s, junk);
  }

  /** The part of its stack in use when a thread was interrupted is as it was when it continues. */
  lemma {:induction false} StackSurvives(c: Code, run: seq<Sys>, events: seq<Event>, i: nat, j: nat, a: Word)
    requires Compiled(c) && IsPath(c, run, events) && Inv(c, run[0]) && i < j < |run|
    requires events[i].Timer? && run[i].ring != [] && Waits(run, run[i].ring[0], i + 1, j)
    requires run[i].ring[0] in run[i].tops && run[i].x[SP] <= a < run[i].tops[run[i].ring[0]]
    ensures var t := run[i].ring[0];
            t in run[j].ring && t in run[j].tops && run[j].tops[t] == run[i].tops[t]
            && Load(run[j].mem, a) == Load(run[i].mem, a)
    decreases j
  {
    hide Inv, Compiled, CanStep, Step, Enabled;
    var t, k := run[i].ring[0], j - 1;
    PathKeepsInv(c, run, events, k);
    assert CanStep(c, run[k], events[k], run[k + 1]);
    if i < k {
      StackSurvives(c, run, events, i, k, a);
    }
    InsideStack(c, run, events, i, a);
    StillInRing(c, run[k], events[k], run[j], t);
    StepKeepsStack(c, run[k], events[k], run[j], t, a);
  }

  lemma InsideStack(c: Code, run: seq<Sys>, events: seq<Event>, i: nat, a: Word)
    requires Compiled(c) && IsPath(c, run, events) && Inv(c, run[0]) && i < |run|
    requires run[i].ring != [] && run[i].ring[0] in run[i].tops && run[i].x[SP] <= a
    ensures run[i].ring[0] in run[i].ring && run[i].tops[run[i].ring[0]] - STACK <= a
  {
    hide IsPath, CanStep, Compiled;
    PathKeepsInv(c, run, events, i);
  }

  lemma StillInRing(c: Code, s: Sys, e: Event, s': Sys, t: Word)
    requires Compiled(c) && Inv(c, s) && CanStep(c, s, e, s') && t in s.ring && (t == s.ring[0] ==> e.Timer?)
    ensures t in s'.ring && t in s.tops && t in s'.tops && s'.tops[t] == s.tops[t]
  {
    StepKeepsInv(c, s, e);
    HeapGrows(c, s, e, s');
    TopsKept(c, s, e, s');
    hide Inv, Step, Enabled, Compiled, Fresh, Arrived, ReturnsThread;
    StillWaitsOrTurns(s.ring, t, s.heap);
  }

  lemma StillWaitsOrTurns(ring: seq<Word>, t: Word, u: Word)
    requires t in ring
    ensures t in ring[1..] + [ring[0]] && t in ring + [u] && (t != ring[0] ==> t in ring[1..])
  {
    assert ring == [ring[0]] + ring[1..];
  }

  lemma TopsKept(c: Code, s: Sys, e: Event, s': Sys)
    requires Compiled(c) && Inv(c, s) && CanStep(c, s, e, s')
    ensures forall t | t in s.ring :: t in s.tops
    ensures forall t | t in s.tops :: t in s'.tops && s'.tops[t] == s.tops[t]
  {
    hide Compiled, Arrived, SwitchTo, OnSpurious, Created, Taken, Away, Fresh, Linked, AllReady;
    match e
    case Timer(scause, junk) =>
      SwitchAllocatesNothing(c, Interrupted(c, s, scause, junk), Away(c, Point(s.x, s.mem), s.pc, scause, junk).x);
    case Exit(junk) =>
      SwitchAllocatesNothing(c, Departed(c, s, junk), ExitCall(s.mem, s.x[TP], junk));
    case Spurious(scause, junk, framed) => SpuriousReturns(c, s, scause, junk, framed);
    case Create(id, fn, arg) => LayoutAdds(c, s, id, fn, arg);
    case _ =>
  }

  lemma SupervisorAlways(c: Code, s: Sys)
    requires Inv(c, s)
    ensures s.st.supervisor
  {
  }

  lemma InterruptSnapshots(c: Code, s: Sys, e: Event, s': Sys)
    requires Compiled(c) && Inv(c, s) && e.Timer? && CanStep(c, s, e, s')
    ensures s.ring != [] && s.ring[0] in s'.ring && s.ring[0] in s'.parked && Arrived(s')
    ensures s'.parked[s.ring[0]].x == s.x && s'.parked[s.ring[0]].pc == s.pc
  {
    TimerSwitches(c, s, e.scause, e.junk);
    hide Inv, OnTimer, Taken, Compiled, R.Distinct;
  }

  /** The first time a new thread runs it enters fn(arg): its argument in a0, its return
      address thread_exit, its stack pointer the top of a stack of its own, in supervisor mode
      with interrupts on. */
  lemma NewThreadStarts(c: Code, run: seq<Sys>, events: seq<Event>, i: nat, j: nat)
    requires Compiled(c) && IsPath(c, run, events) && Inv(c, run[0]) && i < j < |run|
    requires events[i].Create? && run[j].ring != []
    requires Waits(run, run[i].heap, i + 1, j) && run[j].ring[0] == run[i].heap
    ensures var s, x := run[j], run[j].x;
            && s.pc == events[i].fn && x[A0] == events[i].arg && x[RA] == c.threadExit && x[SP] == run[i].nextStack &&
                x[TP] == run[i].heap
            && (forall r: Reg | r !in {A0, RA, SP, TP} :: x[r] == 0)
            && s.st.supervisor && s.st.sie
  {
    hide Inv, Compiled, CanStep;
    PathKeepsInv(c, run, events, i);
    PathKeepsInv(c, run, events, j);
    var s, e, t := run[i], events[i], run[i].heap;
    assert CanStep(c, s, e, run[i + 1]);
    NewSnapshot(c, s, e, run[i + 1]);
    WaitingKeepsSnapshot(c, run, events, t, i + 1, j);
    SupervisorAlways(c, run[j]);
  }

  lemma NewSnapshot(c: Code, s: Sys, e: Event, s': Sys)
    requires Compiled(c) && Inv(c, s) && e.Create? && CanStep(c, s, e, s')
    ensures s.heap in s'.ring && s'.ring[0] != s.heap && s.heap in s'.parked &&
        s'.parked[s.heap] == Fresh(c, s.heap, s.nextStack, e.fn, e.arg)
  {
    CreateAppends(c, s, e.id, e.fn, e.arg);
    hide Fresh, Created, Compiled, Ready;
    assert s.ring[0] in s.tops by {
      assert s.ring[0] in s.ring;
    }
  }

  /** Every thread created takes the next stack down from the top of memory. */
  lemma {:induction false} StacksGoDown(c: Code, run: seq<Sys>, events: seq<Event>)
    requires Compiled(c) && IsPath(c, run, events) && Inv(c, run[0])
    ensures var s, s' := run[0], run[|run| - 1]; s'.nextStack + 4096 * |s'.tops| == s.nextStack + 4096 * |s.tops|
  {
    hide Inv, Compiled, CanStep;
    if events != [] {
      var s, e := run[0], events[0];
      assert CanStep(c, s, e, run[0 + 1]);
      StepAllocates(c, s, e, run[1]);
      StacksGoDown(c, run[1..], events[1..]);
    }
  }

  lemma StepAllocates(c: Code, s: Sys, e: Event, s': Sys)
    requires Compiled(c) && Inv(c, s) && CanStep(c, s, e, s')
    ensures Inv(c, s') && s'.nextStack + STACK * |s'.tops| == s.nextStack + STACK * |s.tops|
  {
    StepKeepsInv(c, s, e);
    hide Inv, Compiled, Arrived, SwitchTo, OnSpurious, Created, Taken, Away, Fresh;
    match e
    case Runs(_, _, _, _) =>
    case Spurious(scause, junk, framed) =>
      SpuriousReturns(c, s, scause, junk, framed);
    case Timer(scause, junk) =>
      SwitchAllocatesNothing(c, Interrupted(c, s, scause, junk), Away(c, Point(s.x, s.mem), s.pc, scause, junk).x);
    case Create(id, fn, arg) =>
      CreateAppends(c, s, id, fn, arg);
      OneMore(s.tops, s.heap, s.nextStack);
    case Exit(junk) =>
      SwitchAllocatesNothing(c, Departed(c, s, junk), ExitCall(s.mem, s.x[TP], junk));
  }

  /** What alloc gives to a running thread is never handed out again: every structure created later lies
      behind it. */
  lemma {:induction false} BlocksStayApart(c: Code, run: seq<Sys>, events: seq<Event>, i: nat, j: nat, t: Word)
    requires Compiled(c) && IsPath(c, run, events) && Inv(c, run[0]) && i < j < |run|
    requires events[i].Runs? && t in run[j].tops && t !in run[i].tops
    ensures run[i].heap + events[i].size <= t && run[i].heap + events[i].size <= run[j].heap
    decreases j
  {
    hide Inv, Compiled, CanStep;
    PathKeepsInv(c, run, events, j - 1);
    assert CanStep(c, run[j - 1], events[j - 1], run[j - 1 + 1]);
    HeapGrows(c, run[j - 1], events[j - 1], run[j]);
    if i < j - 1 {
      HeapOnlyGrows(c, run, events, i + 1, j - 1);
      assert CanStep(c, run[i], events[i], run[i + 1]);
      PathKeepsInv(c, run, events, i);
      HeapGrows(c, run[i], events[i], run[i + 1]);
      if t in run[j - 1].tops {
        BlocksStayApart(c, run, events, i, j - 1, t);
      }
    }
  }

  lemma {:induction false} HeapOnlyGrows(c: Code, run: seq<Sys>, events: seq<Event>, i: nat, j: nat)
    requires Compiled(c) && IsPath(c, run, events) && Inv(c, run[0]) && i <= j < |run|
    ensures run[i].heap <= run[j].heap
    decreases j
  {
    hide Inv, Compiled, CanStep;
    if i < j {
      HeapOnlyGrows(c, run, events, i, j - 1);
      PathKeepsInv(c, run, events, j - 1);
      assert CanStep(c, run[j - 1], events[j - 1], run[j - 1 + 1]);
      HeapGrows(c, run[j - 1], events[j - 1], run[j]);
    }
  }

  lemma HeapGrows(c: Code, s: Sys, e: Event, s': Sys)
    requires Compiled(c) && Inv(c, s) && CanStep(c, s, e, s')
    ensures s.heap + (if e.Runs? then e.size else 0) <= s'.heap
    ensures forall t | t in s'.tops :: t in s.tops || t == s.heap
    ensures e.Runs? ==> s'.tops == s.tops
  {
    StepKeepsInv(c, s, e);
    hide Inv, Compiled, Arrived, SwitchTo, Created, Taken, Away, Fresh, Ignored;
    match e
    case Timer(scause, junk) =>
      SwitchAllocatesNothing(c, Interrupted(c, s, scause, junk), Away(c, Point(s.x, s.mem), s.pc, scause, junk).x);
    case Exit(junk) =>
      SwitchAllocatesNothing(c, Departed(c, s, junk), ExitCall(s.mem, s.x[TP], junk));
    case _ =>
  }

  lemma SwitchAllocatesNothing(c: Code, s: Sys, x: Regs)
    requires Compiled(c)
    ensures var r := SwitchTo(c, s, x);
            r.Some? ==> r.value.nextStack == s.nextStack && r.value.tops == s.tops && r.value.heap == s.heap
  {
    hide Resume, LoadContext;
  }

  lemma OneMore(tops: map<Word, Word>, t: Word, top: Word)
    requires t !in tops
    ensures |tops[t := top]| == |tops| + 1
  {
    assert tops[t := top].Keys == tops.Keys + {t};
  }
}
