/** thread_create, thread_exit and the switch of example/ex11-threads-preemptive.c, as the code
    writes the links in place. Each runs through the steps of the machine in RunQueue. */
module RunQueueCode {
  import opened Common
  import opened RunQueue

  class Scheduler {
    var next: map<Ptr, Ptr>
    var prev: map<Ptr, Ptr>
    var tp: Ptr
    var st: Status
    var heap: Ptr
    ghost var live: set<Ptr>
    ghost var ring: seq<Ptr>

    ghost function At(pc: Pc): State
      reads this
    {
      State(next, prev, tp, st, pc, heap, live, ring)
    }

    /** thread_init, with thread0 at address `thread0`. */
    constructor (thread0: Ptr, heapStart: Ptr, interruptsOn: bool)
      requires 0 < thread0 < heapStart
      ensures Init(At(Running)) && Inv(At(Running)) && tp == thread0
    {
      next, prev := map[thread0 := thread0], map[thread0 := thread0];
      tp, heap, st := thread0, heapStart, Status(true, interruptsOn, false, false);
      live, ring := {thread0}, [thread0];
    }

    /** One step of the machine, proved to keep the invariant. */
    ghost method Took(s: State, e: Event, pc: Pc)
      requires Inv(s) && Step(s, e) == Some(At(pc))
      ensures Inv(At(pc))
    {
      StepKeepsInv(s, e);
    }

    /** The four pointer writes of thread_create. */
    method LinkIn(t: Ptr)
      requires Inv(At(Create1(t)))
      modifies this`next, this`prev, this`ring
      ensures Inv(At(Create5)) && ring == old(ring) + [t]
    {
      hide Inv, Get;
      SetOwnLinks(t);
      ghost var s := At(Create3(t));
      next := next[Get(prev, t) := t];
      Took(s, Continue, Create4(t));
      s := At(Create4(t));
      prev := prev[Get(next, t) := t];
      ring := ring + [t];
      Took(s, Continue, Create5);
    }

    /** The first two of them. */
    method SetOwnLinks(t: Ptr)
      requires Inv(At(Create1(t)))
      modifies this`next, this`prev
      ensures Inv(At(Create3(t)))
    {
      hide Inv, Get;
      ghost var s := At(Create1(t));
      next := next[t := tp];
      Took(s, Continue, Create2(t));
      s := At(Create2(t));
      prev := prev[t := Get(prev, tp)];
      Took(s, Continue, Create3(t));
    }

    /** alloc, which clears the thread. */
    method AllocThread() returns (t: Ptr)
      requires Inv(At(Create0))
      modifies this`heap, this`next, this`prev, this`live
      ensures Inv(At(Create1(t))) && t == old(heap) && live == old(live) + {t}
    {
      hide Inv, Get;
      ghost var s := At(Create0);
      t := heap;
      heap, next, prev, live := heap + 1, next[t := 0], prev[t := 0], live + {t};
      Took(s, Continue, Create1(t));
    }

    /** The new thread goes to the end of the run order: it is `prev` of the current thread. */
    method ThreadCreate() returns (t: Ptr)
      requires Inv(At(Running))
      modifies this
      ensures Inv(At(Running)) && st == old(st).(sie := true) && tp == old(tp)
      ensures t == old(heap) && ring == old(ring) + [t] && live == old(live) + {t}
      ensures Get(prev, tp) == t && Get(next, t) == tp
    {
      hide Inv, Get;
      ghost var s := At(Running);
      st := st.(sie := false);  // irq_disable
      Took(s, CallCreate, Create0);
      t := AllocThread();
      LinkIn(t);
      s := At(Create5);
      st := st.(sie := true);  // irq_enable
      Took(s, Continue, Running);
      RingEnds(At(Running), t);
    }

    /** The four pointer writes of thread_exit. */
    method LinkOut(n: Ptr, p: Ptr)
      requires Inv(At(Exit2(n, p)))
      modifies this`next, this`prev
      ensures Inv(At(Exit6(n))) && Get(next, tp) == 0 && Get(prev, tp) == 0
    {
      hide Inv, Get;
      JoinNeighbours(n, p);
      ghost var s := At(Exit4(n));
      prev := prev[tp := 0];
      Took(s, Continue, Exit5(n));
      s := At(Exit5(n));
      next := next[tp := 0];
      Took(s, Continue, Exit6(n));
      Cleared(next, prev, tp);
    }

    /** The first two of them. */
    method JoinNeighbours(n: Ptr, p: Ptr)
      requires Inv(At(Exit2(n, p)))
      modifies this`next, this`prev
      ensures Inv(At(Exit4(n)))
    {
      hide Inv, Get;
      ghost var s := At(Exit2(n, p));
      prev := prev[n := p];
      Took(s, Continue, Exit3(n, p));
      s := At(Exit3(n, p));
      next := next[p := n];
      Took(s, Continue, Exit4(n));
    }

    /** irq_disable, and sstatus made ready for the sret of the next thread. */
    method MaskForExit()
      requires Inv(At(Running))
      modifies this`st
      ensures Inv(At(Exit1))
    {
      hide Inv, Get;
      ghost var s := At(Running);
      st := st.(sie := false);
      Took(s, CallExit, Exit0);
      s := At(Exit0);
      st := st.(spp := true, spie := true);
      Took(s, Continue, Exit1);
    }

    /** The rest of thread_exit, once another thread `n` is known to follow. */
    method Leave(n: Ptr, p: Ptr)
      requires Inv(At(Exit1)) && n == Get(next, tp) && p == Get(prev, tp) && n != tp
      modifies this
      ensures Inv(At(Returning)) && ring == old(ring)[1..] && live == old(live) - {old(tp)} && tp == n
      ensures Get(next, old(tp)) == 0 && Get(prev, old(tp)) == 0
    {
      hide Inv, Get;
      ghost var s := At(Exit1);
      live := live - {tp};
      Took(s, Continue, Exit2(n, p));
      LinkOut(n, p);
      s := At(Exit6(n));
      RingIsNotEmpty(s);
      tp, ring := n, ring[1..];  // context_switch
      Took(s, Continue, Returning);
    }

    lemma RingIsNotEmpty(s: State)
      requires Inv(s)
      ensures s.ring != []
    {
    }

    /** The last thread stays for ever; any other leaves the ring to the thread after it, which
        is about to return to supervisor mode with interrupts on. */
    method ThreadExit() returns (switched: bool)
      requires Inv(At(Running))
      modifies this
      ensures switched <==> old(|ring|) > 1
      ensures !switched ==> Inv(At(Halted)) && ring == old(ring) && next == old(next) && prev == old(prev)
      ensures switched ==> Inv(At(Returning)) && ring == old(ring)[1..] && live == old(live) - {old(tp)}
                           && tp == Get(old(next), old(tp))
                           && Get(next, old(tp)) == 0 && Get(prev, old(tp)) == 0
    {
      RingSize(At(Running));
      hide Inv, Get;
      MaskForExit();
      ghost var s := At(Exit1);
      var n, p := Get(next, tp), Get(prev, tp);
      if n == tp {
        Took(s, Continue, Halted);
        return false;
      }
      Leave(n, p);
      return true;
    }

    lemma Cleared(next: map<Ptr, Ptr>, prev: map<Ptr, Ptr>, t: Ptr)
      requires t in next && next[t] == 0 && t in prev && prev[t] == 0
      ensures Get(next, t) == 0 && Get(prev, t) == 0
    {
    }

    lemma RingSize(s: State)
      requires Inv(s) && s.pc == Running
      ensures s.ring != [] && (Get(s.next, s.tp) == s.tp <==> |s.ring| == 1)
    {
      assert Get(s.next, s.ring[0]) == s.ring[Succ(0, |s.ring|)];
    }

    lemma RingEnds(s: State, t: Ptr)
      requires Inv(s) && s.pc == Running && |s.ring| >= 2 && t == Last(s.ring)
      ensures Get(s.prev, s.tp) == t && Get(s.next, t) == s.tp
    {
      assert s.ring[Succ(|s.ring| - 1, |s.ring|)] == s.ring[0];
    }

    /** interrupt_handler: the current thread goes to the end of the run order. */
    method InterruptHandler(timerPending: bool)
      requires Inv(At(Handler))
      modifies this`tp, this`ring
      ensures Inv(At(Returning))
      ensures if timerPending then ring == old(ring)[1..] + [old(tp)] && tp == Get(next, old(tp))
              else ring == old(ring) && tp == old(tp)
    {
      ghost var s := At(Handler);
      if timerPending {
        tp, ring := Get(next, tp), ring[1..] + [ring[0]];
        Took(s, Continue, Returning);
      } else {
        Took(s, Spurious, Returning);
      }
    }
  }
}
