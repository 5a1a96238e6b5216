/** The run queue of example/ex11-threads-preemptive.c: every pointer write of thread_create
    and thread_exit is a step of its own, and a timer interrupt may be taken before any step
    that finds interrupts on. The cooperative ex10 is the same machine without the timer. */
module RunQueue {
  import opened Common

  type Ptr = nat  // 0 is the null pointer

  /** Where the current thread stands. */
  datatype Pc =
    | Running
    | Handler                // interrupt_handler, or yield
    | Returning              // the thread switched to, before sret
    | Create0                // thread_create, after irq_disable
    | Create1(t: Ptr)        // after alloc
    | Create2(t: Ptr)        // after t->next = current
    | Create3(t: Ptr)        // after t->prev = current->prev
    | Create4(t: Ptr)        // after t->prev->next = t
    | Create5                // after t->next->prev = t
    | Exit0                  // thread_exit, after irq_disable
    | Exit1                  // after csr_set(SSTATUS_SPP | SSTATUS_SPIE)
    | Exit2(n: Ptr, p: Ptr)  // after reading next and prev
    | Exit3(n: Ptr, p: Ptr)  // after next->prev = prev
    | Exit4(n: Ptr)          // after prev->next = next
    | Exit5(n: Ptr)          // after current->prev = 0
    | Exit6(n: Ptr)          // after current->next = 0
    | Halted                 // all threads have exited

  /** The status bits of the hart: mode and interrupt enable, with their previous values. */
  datatype Status = Status(supervisor: bool, sie: bool, spp: bool, spie: bool)

  /** `live` is a history variable, the threads created and not exited; `ring` is the order in
      which they are to run, beginning with the current one; `heap` is what alloc returns next. */
  datatype State = State(next: map<Ptr, Ptr>, prev: map<Ptr, Ptr>, tp: Ptr, st: Status, pc: Pc, heap: Ptr,
                         live: set<Ptr>, ring: seq<Ptr>)

  function Get(m: map<Ptr, Ptr>, p: Ptr): Ptr { if p in m then m[p] else 0 }

  /** Taking a trap, and sret. */
  function TakeTrap(st: Status): Status { Status(true, false, st.supervisor, st.sie) }

  function Sret(st: Status): Status { Status(st.spp, st.spie, false, true) }

  datatype Event = Timer | CallCreate | CallExit | Spurious | Continue

  function Step(s: State, e: Event): Option<State> {
    match (s.pc, e)
    case (Running, Timer) => if s.st.sie then Some(s.(st := TakeTrap(s.st), pc := Handler)) else None
    case (Running, CallCreate) => Some(s.(st := s.st.(sie := false), pc := Create0))
    case (Running, CallExit) => Some(s.(st := s.st.(sie := false), pc := Exit0))
    case (Handler, Spurious) => Some(s.(pc := Returning))
    case (Handler, Continue) =>
      Some(s.(tp := Get(s.next, s.tp), pc := Returning, ring := if s.ring == [] then [] else s.ring[1..] + [s.ring[0]]))
    case (Returning, Continue) => Some(s.(st := Sret(s.st), pc := Running))
    case (Create0, Continue) =>
      var t := s.heap;
      Some(s.(pc := Create1(t), heap := t + 1, next := s.next[t := 0], prev := s.prev[t := 0], live := s.live + {t}))
    case (Create1(t), Continue) => Some(s.(pc := Create2(t), next := s.next[t := s.tp]))
    case (Create2(t), Continue) => Some(s.(pc := Create3(t), prev := s.prev[t := Get(s.prev, s.tp)]))
    case (Create3(t), Continue) => Some(s.(pc := Create4(t), next := s.next[Get(s.prev, t) := t]))
    case (Create4(t), Continue) => Some(s.(pc := Create5, prev := s.prev[Get(s.next, t) := t], ring := s.ring + [t]))
    case (Create5, Continue) => Some(s.(st := s.st.(sie := true), pc := Running))
    case (Exit0, Continue) => Some(s.(st := s.st.(spp := true, spie := true), pc := Exit1))
    case (Exit1, Continue) =>
      var n := Get(s.next, s.tp);
      if n == s.tp then Some(s.(pc := Halted))
      else Some(s.(pc := Exit2(n, Get(s.prev, s.tp)), live := s.live - {s.tp}))
    case (Exit2(n, p), Continue) => Some(s.(pc := Exit3(n, p), prev := s.prev[n := p]))
    case (Exit3(n, p), Continue) => Some(s.(pc := Exit4(n), next := s.next[p := n]))
    case (Exit4(n), Continue) => Some(s.(pc := Exit5(n), prev := s.prev[s.tp := 0]))
    case (Exit5(n), Continue) => Some(s.(pc := Exit6(n), next := s.next[s.tp := 0]))
    case (Exit6(n), Continue) => Some(s.(tp := n, pc := Returning, ring := if s.ring == [] then [] else s.ring[1..]))
    case _ => None
  }

  /** thread_init: thread0 linked to itself, running in supervisor mode. */
  ghost predicate Init(s: State) {
    && 0 < s.tp < s.heap && s.ring == [s.tp] && s.live == {s.tp}
    && Get(s.next, s.tp) == s.tp && Get(s.prev, s.tp) == s.tp
    && s.st.supervisor && s.pc == Running
  }

  /** Successive states of the machine and the events between them. */
  ghost predicate IsPath(run: seq<State>, events: seq<Event>) {
    |run| == |events| + 1 && forall i | 0 <= i < |events| :: Step(run[i], events[i]) == Some(run[i + 1])
  }

  /** context_switch to another thread's turn: from the timer or yield, or out of thread_exit. */
  predicate IsSwitch(s: State, e: Event) { (s.pc.Handler? || s.pc.Exit6?) && e == Continue }

  function Switches(run: seq<State>, events: seq<Event>): nat
    requires |run| == |events| + 1
  {
    if events == [] then 0 else (if IsSwitch(run[0], events[0]) then 1 else 0) + Switches(run[1..], events[1..])
  }

  // ---- A well-formed ring ----

  function Succ(i: nat, n: nat): nat { if i + 1 == n then 0 else i + 1 }

  ghost predicate Distinct(ring: seq<Ptr>) {
    (forall i | 0 <= i < |ring| :: ring[i] != 0) && (forall i, j | 0 <= i < j < |ring| :: ring[i] != ring[j])
  }

  ghost predicate NextLinks(next: map<Ptr, Ptr>, ring: seq<Ptr>) {
    forall i: nat | i < |ring| :: Get(next, ring[i]) == ring[Succ(i, |ring|)]
  }

  ghost predicate PrevLinks(prev: map<Ptr, Ptr>, ring: seq<Ptr>) {
    forall i: nat | i < |ring| :: Get(prev, ring[Succ(i, |ring|)]) == ring[i]
  }

  /** `next` and `prev` link exactly the threads of `ring` into one cycle, in order. */
  ghost predicate IsRing(s: State, ring: seq<Ptr>) {
    ring != [] && Distinct(ring) && NextLinks(s.next, ring) && PrevLinks(s.prev, ring)
  }

  ghost predicate LiveAre(s: State, ring: seq<Ptr>) {
    forall t :: t in s.live <==> t in ring
  }

  ghost predicate Settled(s: State) { IsRing(s, s.ring) && LiveAre(s, s.ring) }

  function Last(ring: seq<Ptr>): Ptr
    requires ring != []
  {
    ring[|ring| - 1]
  }

  /** The new thread `t` is on its way in, the old ring around it. */
  ghost predicate Entering(s: State, t: Ptr) { 0 < t < s.heap && t !in s.ring && LiveAre(s, s.ring + [t]) }

  /** The current thread is on its way out, `n` next. */
  ghost predicate Leaving(s: State, n: Ptr) { |s.ring| >= 2 && n == s.ring[1] && LiveAre(s, s.ring[1..]) }

  /** The pointers between any two writes. */
  ghost predicate Links(s: State)
    requires s.ring != []
  {
    match s.pc
    case Running => Settled(s)
    case Handler => Settled(s)
    case Returning => Settled(s)
    case Create0 => Settled(s)
    case Create1(t) => IsRing(s, s.ring) && Entering(s, t)
    case Create2(t) => IsRing(s, s.ring) && Entering(s, t) && Get(s.next, t) == s.tp
    case Create3(t) => IsRing(s, s.ring) && Entering(s, t) && Get(s.next, t) == s.tp && Get(s.prev, t) == Last(s.ring)
    case Create4(t) => Entering(s, t) && NextLinks(s.next, s.ring + [t]) && PrevLinks(s.prev, s.ring) &&
        Get(s.prev, t) == Last(s.ring)
    case Create5 => Settled(s)
    case Exit0 => Settled(s)
    case Exit1 => Settled(s)
    case Exit2(n, p) => IsRing(s, s.ring) && Leaving(s, n) && p == Last(s.ring)
    case Exit3(n, p) => NextLinks(s.next, s.ring) && PrevLinks(s.prev, s.ring[1..]) && Leaving(s, n) &&
        p == Last(s.ring)
    case Exit4(n) => IsRing(s, s.ring[1..]) && Leaving(s, n)
    case Exit5(n) => IsRing(s, s.ring[1..]) && Leaving(s, n)
    case Exit6(n) => IsRing(s, s.ring[1..]) && Leaving(s, n)
    case Halted => |s.ring| == 1 && Settled(s)
  }

  predicate Exiting(pc: Pc) { pc.Exit1? || pc.Exit2? || pc.Exit3? || pc.Exit4? || pc.Exit5? || pc.Exit6? }

  /** What holds between any two steps. Interrupts are on nowhere but in Running, and wherever
      an sret lies ahead it goes back to supervisor mode with interrupts on. */
  ghost predicate Inv(s: State) {
    && s.ring != [] && s.tp == s.ring[0] && Distinct(s.ring) && 0 < s.heap && (forall t | t in s.ring :: t < s.heap)
    && s.st.supervisor && (s.st.sie ==> s.pc == Running)
    && (s.pc == Handler || s.pc == Returning || Exiting(s.pc) ==> s.st.spp && s.st.spie)
    && Links(s)
  }

  // ---- One pointer write at a time ----

  lemma LinkNext(next: map<Ptr, Ptr>, ring: seq<Ptr>, t: Ptr)
    requires ring != [] && Distinct(ring) && t !in ring && NextLinks(next, ring) && Get(next, t) == ring[0]
    ensures NextLinks(next[Last(ring) := t], ring + [t])
  {
    var r, next' := ring + [t], next[Last(ring) := t];
    forall i: nat | i < |r|
      ensures Get(next', r[i]) == r[Succ(i, |r|)]
    {
      if i < |ring| {
        assert Get(next, ring[i]) == ring[Succ(i, |ring|)];
      }
    }
  }

  lemma LinkPrev(prev: map<Ptr, Ptr>, ring: seq<Ptr>, t: Ptr)
    requires ring != [] && Distinct(ring) && t !in ring && PrevLinks(prev, ring) && Get(prev, t) == Last(ring)
    ensures PrevLinks(prev[ring[0] := t], ring + [t])
  {
    var r, prev' := ring + [t], prev[ring[0] := t];
    forall i: nat | i < |r|
      ensures Get(prev', r[Succ(i, |r|)]) == r[i]
    {
      if i < |ring| - 1 {
        assert Get(prev, ring[Succ(i, |ring|)]) == ring[i];
        assert ring[0] != ring[i + 1];
      }
    }
  }

  lemma UnlinkNext(next: map<Ptr, Ptr>, ring: seq<Ptr>)
    requires |ring| >= 2 && Distinct(ring) && NextLinks(next, ring)
    ensures NextLinks(next[Last(ring) := ring[1]], ring[1..])
  {
    var r, next' := ring[1..], next[Last(ring) := ring[1]];
    forall i: nat | i < |r|
      ensures Get(next', r[i]) == r[Succ(i, |r|)]
    {
      assert r[i] == ring[i + 1];
      assert Get(next, ring[i + 1]) == ring[Succ(i + 1, |ring|)];
    }
  }

  lemma UnlinkPrev(prev: map<Ptr, Ptr>, ring: seq<Ptr>)
    requires |ring| >= 2 && Distinct(ring) && PrevLinks(prev, ring)
    ensures PrevLinks(prev[ring[1] := Last(ring)], ring[1..])
  {
    var r, prev' := ring[1..], prev[ring[1] := Last(ring)];
    forall i: nat | i < |r|
      ensures Get(prev', r[Succ(i, |r|)]) == r[i]
    {
      assert r[i] == ring[i + 1];
      assert Get(prev, ring[Succ(i + 1, |ring|)]) == ring[i + 1];
    }
  }

  lemma Rotate(next: map<Ptr, Ptr>, prev: map<Ptr, Ptr>, ring: seq<Ptr>)
    requires ring != [] && Distinct(ring) && NextLinks(next, ring) && PrevLinks(prev, ring)
    ensures var r := ring[1..] + [ring[0]];
            && Distinct(r) && NextLinks(next, r) && PrevLinks(prev, r) && Get(next, ring[0]) == r[0]
            && forall t :: t in ring <==> t in r
  {
    assert ring == [ring[0]] + ring[1..];
    assert Get(next, ring[0]) == ring[Succ(0, |ring|)];
    var r := ring[1..] + [ring[0]];
    forall i: nat | i < |r|
      ensures Get(next, r[i]) == r[Succ(i, |r|)] && Get(prev, r[Succ(i, |r|)]) == r[i]
    {
      var k := Succ(i, |ring|);
      assert r[i] == ring[k] && r[Succ(i, |r|)] == ring[Succ(k, |ring|)];
      assert Get(next, ring[k]) == ring[Succ(k, |ring|)];
      assert Get(prev, ring[Succ(k, |ring|)]) == ring[k];
    }
  }

  /** Everything thread_exit does to the links. */
  lemma Unlinked(next: map<Ptr, Ptr>, prev: map<Ptr, Ptr>, ring: seq<Ptr>)
    requires |ring| >= 2 && Distinct(ring) && NextLinks(next, ring) && PrevLinks(prev, ring)
    ensures NextLinks(next[Last(ring) := ring[1]][ring[0] := 0], ring[1..])
    ensures PrevLinks(prev[ring[1] := Last(ring)][ring[0] := 0], ring[1..])
    ensures Get(next, ring[0]) == ring[1] && Get(prev, ring[0]) == Last(ring)
  {
    assert ring[0] !in ring[1..];
    LastPrev(prev, ring);
    FirstNext(next, ring);
    UnlinkPrev(prev, ring);
    UnlinkNext(next, ring);
    WriteOutside(next[Last(ring) := ring[1]], prev[ring[1] := Last(ring)], ring[1..], ring[0], 0);
  }

  /** A write to a thread outside the ring does not disturb it. */
  lemma WriteOutside(next: map<Ptr, Ptr>, prev: map<Ptr, Ptr>, ring: seq<Ptr>, t: Ptr, v: Ptr)
    requires t !in ring
    ensures NextLinks(next, ring) ==> NextLinks(next[t := v], ring)
    ensures PrevLinks(prev, ring) ==> PrevLinks(prev[t := v], ring)
  {
    forall i: nat | i < |ring|
      ensures Get(next[t := v], ring[i]) == Get(next, ring[i])
      ensures Get(prev[t := v], ring[Succ(i, |ring|)]) == Get(prev, ring[Succ(i, |ring|)])
    {
    }
  }

  // ---- The invariant ----

  lemma SwitchKeepsInv(s: State, e: Event)
    requires Inv(s) && (s.pc == Running || s.pc == Handler || s.pc == Returning) && Step(s, e).Some?
    ensures Inv(Step(s, e).value)
  {
    hide NextLinks, PrevLinks, Distinct;
    if s.pc == Handler {
      Rotate(s.next, s.prev, s.ring);
    }
  }

  lemma AllocKeepsInv(s: State)
    requires Inv(s) && s.pc.Create0?
    ensures Inv(Step(s, Continue).value)
  {
    WriteOutside(s.next, s.prev, s.ring, s.heap, 0);
    hide NextLinks, PrevLinks, Distinct;
  }

  lemma OwnNextKeepsInv(s: State)
    requires Inv(s) && s.pc.Create1?
    ensures Inv(Step(s, Continue).value)
  {
    WriteOutside(s.next, s.prev, s.ring, s.pc.t, s.tp);
    hide NextLinks, PrevLinks, Distinct;
  }

  lemma OwnPrevKeepsInv(s: State)
    requires Inv(s) && s.pc.Create2?
    ensures Inv(Step(s, Continue).value)
  {
    LastPrev(s.prev, s.ring);
    WriteOutside(s.next, s.prev, s.ring, s.pc.t, Last(s.ring));
    hide NextLinks, PrevLinks, Distinct;
  }

  lemma LinkInNextKeepsInv(s: State)
    requires Inv(s) && s.pc.Create3?
    ensures Inv(Step(s, Continue).value)
  {
    LinkNext(s.next, s.ring, s.pc.t);
    hide NextLinks, PrevLinks, Distinct;
  }

  lemma LinkInPrevKeepsInv(s: State)
    requires Inv(s) && s.pc.Create4?
    ensures Inv(Step(s, Continue).value)
  {
    LinkPrev(s.prev, s.ring, s.pc.t);
    NewNext(s.next, s.ring, s.pc.t);
    LongerRing(s.ring, s.pc.t);
    hide NextLinks, PrevLinks, Distinct;
  }

  lemma LongerRing(ring: seq<Ptr>, t: Ptr)
    requires Distinct(ring) && t != 0 && t !in ring
    ensures Distinct(ring + [t]) && forall u :: u in ring + [t] <==> u in ring || u == t
  {
  }

  lemma CreateKeepsInv(s: State)
    requires Inv(s) && (s.pc.Create0? || s.pc.Create1? || s.pc.Create2? || s.pc.Create3? || s.pc.Create4? ||
        s.pc.Create5?)
    ensures Inv(Step(s, Continue).value)
  {
    if s.pc.Create5? {
      hide NextLinks, PrevLinks, Distinct, LiveAre;
    } else {
      hide Inv;
      match s.pc
      case Create0 => AllocKeepsInv(s);
      case Create1(_) => OwnNextKeepsInv(s);
      case Create2(_) => OwnPrevKeepsInv(s);
      case Create3(_) => LinkInNextKeepsInv(s);
      case Create4(_) => LinkInPrevKeepsInv(s);
    }
  }

  lemma LastPrev(prev: map<Ptr, Ptr>, ring: seq<Ptr>)
    requires ring != [] && PrevLinks(prev, ring)
    ensures Get(prev, ring[0]) == Last(ring)
  {
    assert ring[Succ(|ring| - 1, |ring|)] == ring[0];
  }

  lemma FirstNext(next: map<Ptr, Ptr>, ring: seq<Ptr>)
    requires |ring| >= 2 && NextLinks(next, ring)
    ensures Get(next, ring[0]) == ring[1]
  {
    assert Get(next, ring[0]) == ring[Succ(0, |ring|)];
  }

  lemma NewNext(next: map<Ptr, Ptr>, ring: seq<Ptr>, t: Ptr)
    requires ring != [] && NextLinks(next, ring + [t])
    ensures Get(next, t) == ring[0]
  {
    var r := ring + [t];
    assert Get(next, r[|ring|]) == r[Succ(|ring|, |r|)];
  }

  lemma ExitBeginsKeepsInv(s: State)
    requires Inv(s) && (s.pc.Exit0? || s.pc.Exit1?)
    ensures Inv(Step(s, Continue).value)
  {
    if s.pc.Exit1? {
      TailOfRing(s);
      LastPrev(s.prev, s.ring);
    }
    hide NextLinks, PrevLinks, Distinct;
  }

  lemma LinkOutPrevKeepsInv(s: State)
    requires Inv(s) && s.pc.Exit2?
    ensures Inv(Step(s, Continue).value)
  {
    UnlinkPrev(s.prev, s.ring);
    hide NextLinks, PrevLinks, Distinct;
  }

  lemma LinkOutNextKeepsInv(s: State)
    requires Inv(s) && s.pc.Exit3?
    ensures Inv(Step(s, Continue).value)
  {
    TailOfRing(s);
    UnlinkNext(s.next, s.ring);
    hide NextLinks, PrevLinks, Distinct;
  }

  lemma ClearKeepsInv(s: State)
    requires Inv(s) && (s.pc.Exit4? || s.pc.Exit5?)
    ensures Inv(Step(s, Continue).value)
  {
    TailOfRing(s);
    WriteOutside(s.next, s.prev, s.ring[1..], s.tp, 0);
    hide NextLinks, PrevLinks, Distinct;
  }

  lemma LeaveKeepsInv(s: State)
    requires Inv(s) && s.pc.Exit6?
    ensures Inv(Step(s, Continue).value)
  {
    TailOfRing(s);
    hide NextLinks, PrevLinks, Distinct;
  }

  lemma ExitKeepsInv(s: State)
    requires Inv(s) && (s.pc.Exit0? || Exiting(s.pc))
    ensures Inv(Step(s, Continue).value)
  {
    hide Inv;
    match s.pc
    case Exit0 => ExitBeginsKeepsInv(s);
    case Exit1 => ExitBeginsKeepsInv(s);
    case Exit2(_, _) => LinkOutPrevKeepsInv(s);
    case Exit3(_, _) => LinkOutNextKeepsInv(s);
    case Exit4(_) => ClearKeepsInv(s);
    case Exit5(_) => ClearKeepsInv(s);
    case Exit6(_) => LeaveKeepsInv(s);
  }

  lemma TailOfRing(s: State)
    requires Inv(s)
    ensures Distinct(s.ring[1..]) && s.tp !in s.ring[1..]
    ensures forall t :: t in s.ring <==> t == s.tp || t in s.ring[1..]
    ensures Get(s.next, s.tp) == s.tp && NextLinks(s.next, s.ring) ==> |s.ring| == 1
    ensures |s.ring| >= 2 && NextLinks(s.next, s.ring) ==> Get(s.next, s.tp) == s.ring[1]
  {
    assert s.ring == [s.tp] + s.ring[1..];
    if NextLinks(s.next, s.ring) {
      assert Get(s.next, s.ring[0]) == s.ring[Succ(0, |s.ring|)];
    }
  }

  lemma StepKeepsInv(s: State, e: Event)
    requires Inv(s) && Step(s, e).Some?
    ensures Inv(Step(s, e).value)
  {
    hide Inv;
    if s.pc == Running || s.pc == Handler || s.pc == Returning {
      SwitchKeepsInv(s, e);
    } else if s.pc.Exit0? || Exiting(s.pc) {
      ExitKeepsInv(s);
    } else {
      CreateKeepsInv(s);
    }
  }

  lemma {:induction false} PathKeepsInv(run: seq<State>, events: seq<Event>)
    requires IsPath(run, events) && Inv(run[0])
    ensures forall i | 0 <= i < |run| :: Inv(run[i])
  {
    if events != [] {
      assert Step(run[0], events[0]) == Some(run[0 + 1]);
      StepKeepsInv(run[0], events[0]);
      PathKeepsInv(run[1..], events[1..]);
      assert forall i | 0 < i < |run| :: run[i] == run[1..][i - 1];
    }
  }

  /** In every run, wherever an interrupt can be taken the pointers form one doubly linked ring
      of exactly the live threads, and the current thread is one of them. No run ever leaves
      supervisor mode. */
  lemma RingWheneverInterruptible(run: seq<State>, events: seq<Event>, i: nat)
    requires IsPath(run, events) && Init(run[0]) && i < |run|
    ensures run[i].st.supervisor
    ensures run[i].st.sie || run[i].pc == Running ==>
              Settled(run[i]) && run[i].tp == run[i].ring[0] && run[i].tp in run[i].live
  {
    PathKeepsInv(run, events);
  }

  /** A thread that runs with interrupts on always does: after a switch, after creating another, after an
      interrupt. So the timer can never be shut out. */
  lemma {:induction false} RunsInterruptibly(run: seq<State>, events: seq<Event>, i: nat)
    requires IsPath(run, events) && Inv(run[0]) && i < |run| && run[0].pc == Running && run[0].st.sie
    ensures run[i].pc == Running ==> run[i].st.sie
  {
    hide Inv;
    if i > 0 {
      RunsInterruptibly(run, events, i - 1);
      PathKeepsInv(run, events);
      assert Step(run[i - 1], events[i - 1]) == Some(run[i - 1 + 1]);
      StaysInterruptible(run[i - 1], events[i - 1]);
    }
  }

  lemma StaysInterruptible(s: State, e: Event)
    requires Inv(s) && Step(s, e).Some? && (s.pc == Running ==> s.st.sie)
    ensures Step(s, e).value.pc == Running ==> Step(s, e).value.st.sie
  {
    hide Links;
  }

  // ---- Bounded waiting ----

  /** A switch moves every waiting thread one place closer to its turn; no other step moves
      any, a creation least of all. */
  lemma StepMovesUp(s: State, e: Event, d: nat)
    requires Inv(s) && Step(s, e).Some? && d < |s.ring|
    ensures var s' := Step(s, e).value;
            if !IsSwitch(s, e) then d < |s'.ring| && s'.ring[d] == s.ring[d]
            else d > 0 ==> d <= |s'.ring| && s'.ring[d - 1] == s.ring[d]
  {
    hide Inv, Settled, IsRing, Links;
  }

  /** A thread at distance d from the current one becomes current after exactly d switches and
      not before, whatever threads are created or exit meanwhile. */
  lemma {:induction false} BoundedWaiting(run: seq<State>, events: seq<Event>, d: nat)
    requires IsPath(run, events) && Inv(run[0]) && d < |run[0].ring| && Switches(run, events) <= d
    ensures var s, left := run[|run| - 1], d - Switches(run, events);
            left < |s.ring| && s.ring[left] == run[0].ring[d] && (s.tp == run[0].ring[d] <==> left == 0)
  {
    if events != [] {
      var s, e := run[0], events[0];
      assert Step(s, e) == Some(run[0 + 1]);
      StepKeepsInv(s, e);
      StepMovesUp(s, e, d);
      BoundedWaiting(run[1..], events[1..], if IsSwitch(s, e) then d - 1 else d);
    }
  }
}
