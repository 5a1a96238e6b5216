/** Thread code, timer interrupts and thread_exit keep the invariant of ThreadSystem. */
module ThreadSwitch {
  import opened Common
  import opened Rv32
  import opened ContextSwitch
  import opened ThreadSystem
  import R = RunQueue

  // ---- The invariant ----

  lemma LayoutIsSpaced(s: Sys)
    requires Layout(s)
    ensures Spaced(s.tops.Keys)
  {
  }

  /** The moment between two threads: every live thread is parked. */
  ghost predicate AllParked(c: Code, s: Sys) {
    && Layout(s) && InRing(s) && Linked(s)
    && s.st.supervisor && s.st.spp && s.st.spie
    && forall t | t in s.ring :: t in s.parked && Ready(c, s.mem, t, s.tops[t], s.parked[t])
  }

  /** Threads that a change of memory does not touch stay ready. */
  lemma StaysReady(c: Code, m: Mem, m': Mem, t: Word, top: Word, s: Snap)
    requires Compiled(c) && Ready(c, m, t, top, s) && Placed(c, t, s.x[SP])
    requires forall a: Word | Mine(t, top, a) && !(t <= a < t + CTXT) :: Load(m', a) == Load(m, a)
    ensures Ready(c, m', t, top, s)
  {
    forall a: Word | Touched(c, t, s.x[SP], a)
      ensures Load(m', a) == Load(m, a)
    {
      TouchedIsMine(c, t, top, s.x[SP], a);
    }
    SavedNeedsOnly(c, m, m', t, s);
  }

  /** The current thread has just continued with what it was parked with, interrupts on. */
  ghost predicate Arrived(s: Sys) {
    s.ring != [] && s.ring[0] in s.parked && s.x == s.parked[s.ring[0]].x && s.pc == s.parked[s.ring[0]].pc && s.st.sie
  }

  /** The switch arrives in the first thread of the ring, with its own registers and pc. */
  lemma SwitchArrives(c: Code, s: Sys, x: Regs)
    requires Compiled(c) && AllParked(c, s) && x[A1] == Addr(s.ring[0], CTXT)
    ensures var r := SwitchTo(c, s, x);
            && r.Some? && Inv(c, r.value) && Arrived(r.value)
            && r.value == s.(x := r.value.x, pc := r.value.pc, st := R.Sret(s.st))
  {
    var t := s.ring[0];
    assert t in s.ring;
    SavedResumes(c, s.mem, x, t, s.parked[t]);
    hide Resume, LoadContext, Saved, LinkMap, R.NextLinks, R.PrevLinks, R.Distinct, Compiled;
  }

  /** The words of the thread structures before their context frames. */
  ghost predicate HeadsKept(s: Sys, m': Mem) {
    forall t, a: Word | t in s.tops && t <= a < t + CTXT :: Load(m', a) == Load(s.mem, a)
  }

  /** Context frames and stacks of the live threads other than the current one. */
  ghost predicate OthersKept(s: Sys, m': Mem)
    requires InRing(s)
  {
    forall t, a: Word | t in s.ring && t != s.ring[0] && Mine(t, s.tops[t], a) && !(t <= a < t + CTXT) ::
        Load(m', a) == Load(s.mem, a)
  }

  /** A change of memory outside every link field keeps the links. */
  lemma StaysLinked(s: Sys, m': Mem)
    requires Layout(s) && InRing(s) && Linked(s) && HeadsKept(s, m')
    ensures Linked(s.(mem := m'))
  {
    forall t | t in s.tops
      ensures Load(m', Addr(t, NEXT)) == Load(s.mem, Addr(t, NEXT)) &&
          Load(m', Addr(t, PREV)) == Load(s.mem, Addr(t, PREV))
    {
      NoWrap(t, NEXT);
      NoWrap(t, PREV);
    }
    LinksAgree(s.mem, m', s.tops.Keys, s.ring, NEXT);
    LinksAgree(s.mem, m', s.tops.Keys, s.ring, PREV);
    hide LinkMap, R.NextLinks, R.PrevLinks, R.Distinct, Addr;
  }

  lemma RoundedUp(heap: Word, size: nat)
    requires Aligned(32, heap)
    ensures Aligned(32, heap + RoundUp(size))
  {
  }

  lemma LayoutGrows(s: Sys, s': Sys)
    requires Layout(s) && s'.tops == s.tops && s'.nextStack == s.nextStack && s.heap <= s'.heap <= s.nextStack &&
        Aligned(32, s'.heap)
    ensures Layout(s')
  {
  }

  lemma OthersStayReady(c: Code, s: Sys, m': Mem)
    requires Compiled(c) && Inv(c, s) && OthersKept(s, m')
    ensures forall t | t in s.ring && t != s.ring[0] :: t in s.parked && Ready(c, m', t, s.tops[t], s.parked[t])
  {
    hide Compiled, Saved, Linked, R.Distinct;
    forall t | t in s.ring && t != s.ring[0]
      ensures Ready(c, m', t, s.tops[t], s.parked[t])
    {
      PlacedThread(c, s, t, s.parked[t].x[SP]);
      StaysReady(c, s.mem, m', t, s.tops[t], s.parked[t]);
    }
  }

  lemma GuardedIsKept(c: Code, s: Sys, e: Event)
    requires Inv(c, s) && e.Runs? && Enabled(c, s, e)
    ensures HeadsKept(s, e.mem) && OthersKept(s, e.mem)
  {
    hide AllReady, Linked, R.Distinct;
  }

  lemma RunsKeepsInv(c: Code, s: Sys, e: Event)
    requires Compiled(c) && Inv(c, s) && e.Runs? && Enabled(c, s, e)
    ensures Step(c, s, e).Some? && Inv(c, Step(c, s, e).value)
  {
    hide Ready, Compiled, LinkMap, R.NextLinks, R.PrevLinks, R.Distinct, RoundUp, Guarded, HeadsKept, OthersKept;
    GuardedIsKept(c, s, e);
    RoundedUp(s.heap, e.size);
    StaysLinked(s, e.mem);
    OthersStayReady(c, s, e.mem);
    LayoutGrows(s, s.(x := e.x, mem := e.mem, pc := e.pc, heap := s.heap + RoundUp(e.size)));
    hide Layout;
  }

  /** An interrupt leaves the whole system parked: the current thread as it was, the others
      untouched. */
  lemma InterruptParksAll(c: Code, s: Sys, scause: Word, junk: Regs)
    requires Compiled(c) && Inv(c, s)
    ensures var p := Point(s.x, s.mem);
            var q, cur := Away(c, p, s.pc, scause, junk), s.ring[0];
            forall t | t in s.ring ::
              if t == cur then Ready(c, q.mem, t, s.tops[t], Taken(c, p, s.pc, scause, junk))
              else t in s.parked && Ready(c, q.mem, t, s.tops[t], s.parked[t])
    ensures Linked(s.(mem := Away(c, Point(s.x, s.mem), s.pc, scause, junk).mem))
    ensures Away(c, Point(s.x, s.mem), s.pc, scause, junk).x[A1] == Addr(Load(s.mem, Addr(s.ring[0], NEXT)), CTXT)
  {
    var p, cur := Point(s.x, s.mem), s.ring[0];
    assert cur in s.ring;
    PlacedThread(c, s, cur, s.x[SP]);
    InterruptParks(c, p, s.pc, scause, junk);
    var q := Away(c, p, s.pc, scause, junk);
    hide Away, Compiled, R.Distinct, R.NextLinks, R.PrevLinks, LinkMap, Saved;
    InterruptIsQuiet(c, s, q.mem);
    hide HeadsKept, OthersKept, Layout;
    StaysLinked(s, q.mem);
    OthersStayReady(c, s, q.mem);
  }

  lemma InterruptIsQuiet(c: Code, s: Sys, m': Mem)
    requires Inv(c, s)
    requires forall a: Word | !Touched(c, s.ring[0], s.x[SP], a) :: Load(m', a) == Load(s.mem, a)
    ensures HeadsKept(s, m') && OthersKept(s, m')
  {
    var cur := s.ring[0];
    hide AllReady, Linked, R.Distinct, Touched, Mine, SpOk;
    assert cur in s.ring;
    forall t, a: Word | t in s.tops && t <= a < t + CTXT
      ensures Load(m', a) == Load(s.mem, a)
    {
      HeadIsQuiet(c, s, t, a);
    }
    forall t, a: Word | t in s.ring && t != cur && Mine(t, s.tops[t], a)
      ensures Load(m', a) == Load(s.mem, a)
    {
      Apart(s, t, cur, a);
      if Touched(c, cur, s.x[SP], a) {
        TouchedIsMine(c, cur, s.tops[cur], s.x[SP], a);
      }
    }
  }

  /** An interrupt of the current thread writes to no link field. */
  lemma HeadIsQuiet(c: Code, s: Sys, t: Word, a: Word)
    requires Inv(c, s) && t in s.tops && t <= a < t + CTXT
    ensures !Touched(c, s.ring[0], s.x[SP], a)
  {
    var cur := s.ring[0];
    assert cur in s.ring;
    if Touched(c, cur, s.x[SP], a) {
      TouchedIsMine(c, cur, s.tops[cur], s.x[SP], a);
      if t != cur {
        Apart(s, t, cur, a);
      }
    }
  }

  /** The ring turned by one, over the same links. */
  lemma RingTurns(s: Sys, s': Sys)
    requires InRing(s) && Linked(s.(mem := s'.mem)) && s'.tops == s.tops && s'.ring == s.ring[1..] + [s.ring[0]]
    ensures InRing(s') && Linked(s') && forall t | t in s'.ring :: t in s.ring
    ensures Linked(s) ==> Load(s.mem, Addr(s.ring[0], NEXT)) == s'.ring[0]
  {
    var cur, keys := s.ring[0], s.tops.Keys;
    assert cur in s.ring;
    R.Rotate(LinkMap(s'.mem, keys, NEXT), LinkMap(s'.mem, keys, PREV), s.ring);
    if Linked(s) {
      R.Rotate(LinkMap(s.mem, keys, NEXT), LinkMap(s.mem, keys, PREV), s.ring);
      LinkValue(s.mem, keys, NEXT, cur);
    }
    hide R.Distinct, R.NextLinks, R.PrevLinks, LinkMap, Addr;
  }

  lemma InterruptedIsParked(c: Code, s: Sys, scause: Word, junk: Regs)
    requires Compiled(c) && Inv(c, s) && s.st.sie
    ensures AllParked(c, Interrupted(c, s, scause, junk))
    ensures Away(c, Point(s.x, s.mem), s.pc, scause, junk).x[A1] == Addr(Interrupted(c, s, scause, junk).ring[0], CTXT)
  {
    hide Away, Taken, Compiled, Linked, Ready, Addr, AllReady, R.Distinct;
    InterruptParksAll(c, s, scause, junk);
    var s1 := Interrupted(c, s, scause, junk);
    RingTurns(s, s1);
    LayoutGrows(s, s1);
    hide Layout;
  }

  lemma TakenIs(c: Code, p: Point, sepc: Word, scause: Word, junk: Regs)
    ensures Taken(c, p, sepc, scause, junk).x == p.x && Taken(c, p, sepc, scause, junk).pc == sepc
  {
  }

  /** A timer interrupt is never stuck: it ends in the next thread, with exactly the registers
      and pc that thread is parked with; and the thread it interrupted is now parked with the
      registers and pc of that moment. */
  lemma TimerSwitches(c: Code, s: Sys, scause: Word, junk: Regs)
    requires Compiled(c) && Inv(c, s) && s.st.sie
    ensures var r, taken := OnTimer(c, s, scause, junk), Taken(c, Point(s.x, s.mem), s.pc, scause, junk);
            && r.Some? && Inv(c, r.value) && Arrived(r.value)
            && r.value.ring == s.ring[1..] + [s.ring[0]] && r.value.tops == s.tops
            && taken.x == s.x && taken.pc == s.pc && r.value.parked == s.parked[s.ring[0] := taken]
  {
    InterruptedIsParked(c, s, scause, junk);
    SwitchArrives(c, Interrupted(c, s, scause, junk), Away(c, Point(s.x, s.mem), s.pc, scause, junk).x);
    TakenIs(c, Point(s.x, s.mem), s.pc, scause, junk);
    hide AllParked, Layout, Linked, SwitchTo, Away, Taken, Compiled, Addr, AllReady, R.Distinct;
  }

  /** An interrupt that finds no timer pending changes nothing that matters. */
  lemma SpuriousReturns(c: Code, s: Sys, scause: Word, junk: Regs, framed: bool)
    requires Compiled(c) && Inv(c, s) && s.st.sie
    ensures var r := OnSpurious(c, s, scause, junk, framed);
            r.Some? && Inv(c, r.value) && r.value == s.(mem := r.value.mem, st := r.value.st) && r.value.st.sie
  {
    hide Ignored, Compiled, R.Distinct, Ready, Linked, HeadsKept, OthersKept, Placed, Touched, AllReady, Layout;
    var cur, m := s.ring[0], Ignored(c, Point(s.x, s.mem), s.pc, scause, junk, framed).1;
    assert cur in s.ring;
    PlacedThread(c, s, cur, s.x[SP]);
    IgnoredReturns(c, Point(s.x, s.mem), s.pc, scause, junk, framed);
    InterruptIsQuiet(c, s, m);
    QuietKeepsInv(c, s, m, R.Sret(R.TakeTrap(s.st)));
  }

  lemma QuietKeepsInv(c: Code, s: Sys, m: Mem, st: R.Status)
    requires Compiled(c) && Inv(c, s) && HeadsKept(s, m) && OthersKept(s, m) && st.supervisor
    ensures Inv(c, s.(mem := m, st := st))
  {
    hide Compiled, R.Distinct, Ready, HeadsKept, OthersKept, LinkMap, R.NextLinks, R.PrevLinks, Aligned;
    StaysLinked(s, m);
    OthersStayReady(c, s, m);
  }

  // ---- thread_exit ----

  lemma CellIsNobodys(s: Sys, t: Word, a: Word)
    requires Layout(s) && t in s.tops && Mine(t, s.tops[t], a) && !(t <= a < t + CTXT)
    ensures !IsCell(s.tops.Keys, a)
  {
    forall u | u in s.tops
      ensures a != Addr(u, NEXT) && a != Addr(u, PREV)
    {
      NoWrap(u, NEXT);
      NoWrap(u, PREV);
      if u != t {
        Apart(s, t, u, a);
      }
    }
  }

  lemma ContextSaved(p: Point, t: Word)
    requires p.x[A0] == Addr(t, CTXT) && t + SIZE <= TWO32
    ensures forall a: Word | !(t + CTXT <= a < t + SIZE) :: Load(SaveContext(p).mem, a) == Load(p.mem, a)
  {
    CframeIsProper();
    CframeRows();
    NoWrap(t, CTXT);
    StoresStayInside(p.mem, p.x, t + CTXT, CFRAME, 64);
    hide CFRAME, Addr, Stores, ContextRow;
  }

  /** The ring without its first thread. */
  lemma RingShrinks(s: Sys, s': Sys)
    requires InRing(s) && |s.ring| > 1 && s'.tops == s.tops && s'.ring == s.ring[1..]
    ensures InRing(s') && s.ring[0] !in s'.ring && forall t | t in s'.ring :: t in s.ring
  {
  }

  lemma ExitUnlinks(c: Code, s: Sys, junk: Regs)
    requires Inv(c, s) && |s.ring| > 1
    ensures Linked(Departed(c, s, junk)) && Load(s.mem, Addr(s.ring[0], NEXT)) == s.ring[1]
    ensures OthersKept(s, Departed(c, s, junk).mem)
  {
    var cur, m1, s' := s.ring[0], LinkOut(s.mem, s.ring[0]), Departed(c, s, junk);
    hide AllReady, LinkOut, ExitCall, LinkMap, R.NextLinks, R.PrevLinks, Addr, SaveContext, R.Distinct;
    assert cur in s.ring;
    RingShrinks(s, s');
    LayoutIsSpaced(s);
    LinkOutMemory(s.mem, s.tops.Keys, s.ring);
    var p := Point(ExitCall(s.mem, s.x[TP], junk), m1);
    ExitCallArguments(s, junk);
    ContextSaved(p, cur);
    var mid := s.(mem := m1, ring := s.ring[1..]);
    assert HeadsKept(mid, s'.mem) by {
      forall t, a: Word | t in s.tops && t <= a < t + CTXT
        ensures Load(s'.mem, a) == Load(m1, a)
      {
        if t != cur {
          Apart(s, t, cur, a);
        }
      }
    }
    StaysLinked(mid, s'.mem);
    forall t, a: Word | t in s.ring && t != cur && Mine(t, s.tops[t], a) && !(t <= a < t + CTXT)
      ensures Load(s'.mem, a) == Load(s.mem, a)
    {
      CellIsNobodys(s, t, a);
      Apart(s, t, cur, a);
    }
  }

  /** A thread that has exited is linked to nothing. */
  lemma ExitClearsLinks(c: Code, s: Sys, junk: Regs)
    requires Inv(c, s) && |s.ring| > 1
    ensures var t := s.ring[0];
            t + 12 < TWO32 && Load(Departed(c, s, junk).mem, t + 8) == 0 && Load(Departed(c, s, junk).mem, t + 12) == 0
  {
    var t := s.ring[0];
    hide AllReady, ExitCall, LinkMap, R.NextLinks, R.PrevLinks, Addr, SaveContext, R.Distinct, Linked;
    assert t in s.ring;
    NoWrap(t, NEXT);
    NoWrap(t, PREV);
    ExitCallArguments(s, junk);
    ContextSaved(Point(ExitCall(s.mem, s.x[TP], junk), LinkOut(s.mem, s.x[TP])), t);
  }

  lemma ExitCallArguments(s: Sys, junk: Regs)
    ensures ExitCall(s.mem, s.x[TP], junk)[A0] == Addr(s.x[TP], CTXT)
    ensures ExitCall(s.mem, s.x[TP], junk)[A1] == Addr(Load(s.mem, Addr(s.x[TP], NEXT)), CTXT)
  {
  }

  /** thread_exit, unless the thread is the last, is never stuck either: the next thread
      continues with what it was parked with, interrupts on, and the ring closes behind. */
  lemma ExitSwitches(c: Code, s: Sys, junk: Regs)
    requires Compiled(c) && Inv(c, s) && |s.ring| > 1
    ensures var r := OnExit(c, s, junk);
            && r.Some? && Inv(c, r.value) && Arrived(r.value)
            && r.value.ring == s.ring[1..] && r.value.tops == s.tops && r.value.parked == s.parked
  {
    var s' := Departed(c, s, junk);
    hide Linked, Ready, OthersKept, R.Distinct, Compiled;
    ExitUnlinks(c, s, junk);
    RingShrinks(s, s');
    OthersStayReady(c, s, s'.mem);
    LayoutGrows(s, s');
    ExitCallArguments(s, junk);
    hide Layout, SwitchTo, ExitCall, Addr, SaveContext, LinkOut;
    assert AllParked(c, s');
    SwitchArrives(c, s', ExitCall(s.mem, s.x[TP], junk));
    hide Inv, AllParked;
  }
}
