/** thread_create keeps the invariant of ThreadSystem, and what it builds is a thread ready to
    start. */
module ThreadCreate {
  import opened Common
  import opened Rv32
  import opened ContextSwitch
  import opened ThreadSystem
  import opened ThreadSwitch
  import R = RunQueue
  import XosTrap

  // ---- thread_create ----

  /** The context frame of a new thread, on cleared memory but for its tp. */
  lemma NewContextAt(c: Code, m: Mem, t: Word, top: Word, fn: Word, arg: Word)
    requires t + SIZE <= TWO32
    requires forall i | 0 <= i < 16 :: Load(m, t + CTXT + 4 * i) == if i == 3 then t else 0
    ensures InContext(NewContext(c, m, t, top), t, Fresh(c, t, top, fn, arg))
    ensures forall a: Word | !(t + CTXT <= a < t + SIZE) :: Load(NewContext(c, m, t, top), a) == Load(m, a)
  {
    CframeRows();
    NoWrap(t, CTXT);
    NoWrap(t, CTXT_PC);
    NoWrap(t, CTXT_SP);
    hide CFRAME, Addr;
    var m', y := NewContext(c, m, t, top), Fresh(c, t, top, fn, arg).y;
    forall i | 0 <= i < |CFRAME|
      ensures Load(m', Addr(Addr(t, CTXT), CFRAME[i].off)) == y[CFRAME[i].reg]
    {
      NoWrap(t + CTXT, 4 * i);
      assert Load(m, t + CTXT + 4 * i) == if i == 3 then t else 0;
      assert i == ContextRow(CFRAME[i].reg);
    }
  }

  /** The words of the trap frame of a new thread. */
  lemma NewFrameWords(c: Code, m: Mem, sp: Word, fn: Word, arg: Word)
    requires sp + XosTrap.FRAME <= TWO32
    ensures var m' := NewFrame(c, m, sp, fn, arg);
            && (forall i | 0 <= i < 16 :: Load(m', sp + 4 * i) == if i == 0 then c.threadExit else if i == 8 then arg
                else 0)
            && Load(m', sp + XosTrap.PC_OFF) == fn
            && forall a: Word | !(sp <= a < sp + XosTrap.FRAME) :: Load(m', a) == Load(m, a)
  {
    Cleared(m, sp, TFRAME_WORDS);
    NoWrap(sp, 0x00);
    NoWrap(sp, 0x20);
    NoWrap(sp, XosTrap.PC_OFF);
    hide Fill, Addr;
  }

  /** They are the frame of a thread about to enter fn(arg). */
  lemma NewFrameAt(c: Code, m: Mem, t: Word, top: Word, fn: Word, arg: Word)
    requires XosTrap.FRAME <= top
    ensures InTrapFrame(NewFrame(c, m, top - XosTrap.FRAME, fn, arg), Fresh(c, t, top, fn, arg))
    ensures TrapSp(Fresh(c, t, top, fn, arg)) == top - XosTrap.FRAME
    ensures forall a: Word | !(top - XosTrap.FRAME <= a < top) ::
        Load(NewFrame(c, m, top - XosTrap.FRAME, fn, arg), a) == Load(m, a)
  {
    hide NewFrame, Fresh, TrapSp, Addr, XosTrap.CALLER_SAVED, XosTrap.CALLEE_SAVED, XosTrap.RowOf;
    var sp, s := top - XosTrap.FRAME, Fresh(c, t, top, fn, arg);
    FreshTrapSp(c, t, top, fn, arg);
    XosTrap.RowsCoverRegisters();
    NoWrap(sp, XosTrap.PC_OFF);
    NewFrameWords(c, m, sp, fn, arg);
    FreshIs(c, t, top, fn, arg);
    var m' := NewFrame(c, m, sp, fn, arg);
    forall i | 0 <= i < |XosTrap.CALLER_SAVED|
      ensures Load(m', Addr(sp, XosTrap.CALLER_SAVED[i].off)) == s.x[XosTrap.CALLER_SAVED[i].reg]
    {
      NoWrap(sp, 4 * i);
      assert Load(m', sp + 4 * i) == if i == 0 then c.threadExit else if i == 8 then arg else 0;
      assert i == XosTrap.RowOf(XosTrap.CALLER_SAVED[i].reg);
    }
  }

  lemma FreshTrapSp(c: Code, t: Word, top: Word, fn: Word, arg: Word)
    requires XosTrap.FRAME <= top
    ensures TrapSp(Fresh(c, t, top, fn, arg)) == top - XosTrap.FRAME
  {
    NoWrap(top, XosTrap.FRAME);
  }

  lemma NewStructAt(m: Mem, t: Word, id: Word)
    requires t + ALLOC <= TWO32
    ensures forall i | 0 <= i < 16 :: Load(NewStruct(m, t, id), t + CTXT + 4 * i) == 0
    ensures forall a: Word | !(t <= a < t + ALLOC) :: Load(NewStruct(m, t, id), a) == Load(m, a)
  {
    Cleared(m, t, ALLOC_WORDS);
    NoWrap(t, 4);
    hide Fill, Addr;
    forall i | 0 <= i < 16
      ensures Load(NewStruct(m, t, id), t + CTXT + 4 * i) == 0
    {
      assert Load(Fill(m, t, ALLOC_WORDS, 0), t + 4 * (i + 4)) == 0;
    }
  }

  lemma FreshIs(c: Code, t: Word, top: Word, fn: Word, arg: Word)
    ensures var s := Fresh(c, t, top, fn, arg);
            && s.y[RA] == c.trapExit && s.y[SP] == TrapSp(s) && s.x[SP] == top && s.x[TP] == t
            && s.pc == fn && forall r: Reg | Global(r) :: s.y[r] == s.x[r]
    ensures forall r: Reg | XosTrap.IsCallerSaved(r) ::
              Fresh(c, t, top, fn, arg).x[r] == if XosTrap.RowOf(r) == 0 then c.threadExit
                else if XosTrap.RowOf(r) == 8 then arg else 0
  {
  }

  lemma ContextKept(m: Mem, m': Mem, t: Word, s: Snap)
    requires t + SIZE <= TWO32 && InContext(m, t, s)
    requires forall a: Word | t + CTXT <= a < t + SIZE :: Load(m', a) == Load(m, a)
    ensures InContext(m', t, s)
  {
    ContextInside(t);
    hide CFRAME, Addr;
  }

  /** A new thread is ready to start. */
  lemma NewStackReady(c: Code, m: Mem, t: Word, top: Word, fn: Word, arg: Word)
    requires Compiled(c) && Aligned(STACK, top) && t + SIZE <= top - STACK && STACK <= top
    requires forall i | 0 <= i < 16 :: Load(m, t + CTXT + 4 * i) == 0
    ensures Ready(c, NewStack(c, m, t, top, fn, arg), t, top, Fresh(c, t, top, fn, arg))
    ensures forall a: Word | !(t + CTXT <= a < t + SIZE) && !(top - STACK <= a < top) ::
        Load(NewStack(c, m, t, top, fn, arg), a) == Load(m, a)
  {
    var s := Fresh(c, t, top, fn, arg);
    FreshIs(c, t, top, fn, arg);
    TopIsOk(c, top);
    NoWrap(t, CTXT_TP);
    hide Fresh, NewContext, NewFrame, InContext, InTrapFrame, Addr, TrapSp, Compiled, SpOk, Fill;
    var m0 := Put(m, Addr(t, CTXT_TP), t);
    FillAt(m0, top - STACK, STACK_WORDS, STACK_FILL);
    var m1 := Fill(m0, top - STACK, STACK_WORDS, STACK_FILL);
    NewContextAt(c, m1, t, top, fn, arg);
    var m2 := NewContext(c, m1, t, top);
    NewFrameAt(c, m2, t, top, fn, arg);
    ContextKept(m2, NewFrame(c, m2, top - XosTrap.FRAME, fn, arg), t, s);
    assert Addr(t, CTXT_TP) == t + CTXT_TP;
    forall a: Word | !(t + CTXT <= a < t + SIZE) && !(top - STACK <= a < top)
      ensures Load(NewStack(c, m, t, top, fn, arg), a) == Load(m, a)
    {
      assert Load(m2, a) == Load(m1, a) == Load(m0, a);
    }
  }

  /** Every word of a new stack: filled below the frame and above its used part, and in the frame the thread's
      return address, argument and entry, and zeros. */
  lemma NewStackWords(c: Code, m: Mem, t: Word, top: Word, fn: Word, arg: Word, i: nat)
    requires Aligned(STACK, top) && t + SIZE <= top - 4096 && 4096 <= top && i < 1024
    ensures Load(NewStack(c, m, t, top, fn, arg), top - 4096 + 4 * i) ==
            if i == 992 then c.threadExit else if i == 1000 then arg else if i == 1008 then fn
            else if 992 <= i < 1012 then 0 else 0xEEEE_EEEE
  {
    hide NewFrame, NewContext, InContext, Fresh, Addr, Aligned, Fill;
    var lo := top - 4096;
    var m1 := Fill(Put(m, Addr(t, CTXT_TP), t), lo, STACK_WORDS, STACK_FILL);
    FillAt(Put(m, Addr(t, CTXT_TP), t), lo, STACK_WORDS, STACK_FILL);
    StackIndex(lo, i);
    ContextOutside(c, m1, t, top, lo + 4 * i);
    var m2 := NewContext(c, m1, t, top);
    assert Load(m2, lo + 4 * i) == STACK_FILL;
    FrameWordAt(c, m2, top - XosTrap.FRAME, fn, arg, i, lo + 4 * i);
  }

  lemma StackIndex(lo: Word, i: nat)
    requires i < 1024
    ensures (lo + 4 * i - lo) % 4 == 0
  {
  }

  lemma ContextOutside(c: Code, m: Mem, t: Word, top: Word, a: Word)
    requires t + SIZE <= TWO32 && !(t + CTXT <= a < t + SIZE)
    ensures Load(NewContext(c, m, t, top), a) == Load(m, a)
  {
    NoWrap(t, CTXT_PC);
    NoWrap(t, CTXT_SP);
    hide Addr;
  }

  lemma FrameWordAt(c: Code, m: Mem, sp: Word, fn: Word, arg: Word, i: nat, a: Word)
    requires sp + XosTrap.FRAME <= TWO32 && i < 1024 && a == sp + XosTrap.FRAME - 4096 + 4 * i
    ensures Load(NewFrame(c, m, sp, fn, arg), a) ==
            if i == 992 then c.threadExit else if i == 1000 then arg else if i == 1008 then fn
            else if 992 <= i < 1012 then 0 else Load(m, a)
  {
    FillAt(m, sp, TFRAME_WORDS, 0);
    assert i >= 992 ==> a - sp == 4 * (i - 992) && (a - sp) % 4 == 0;
    assert Load(Fill(m, sp, TFRAME_WORDS, 0), a) == if 992 <= i < 1012 then 0 else Load(m, a);
    NoWrap(sp, 0x00);
    NoWrap(sp, 0x20);
    NoWrap(sp, XosTrap.PC_OFF);
    hide Fill, Addr;
  }

  lemma TopIsOk(c: Code, top: Word)
    requires Compiled(c) && Aligned(STACK, top)
    ensures SpOk(c, top, top)
  {
  }

  lemma LayoutAdds(c: Code, s: Sys, id: Word, fn: Word, arg: Word)
    requires Layout(s) && s.heap + ALLOC + STACK <= s.nextStack
    ensures Layout(OnCreate(c, s, id, fn, arg)) && s.heap !in s.tops && Aligned(4, s.heap)
    ensures forall t | t in s.tops :: s.nextStack <= s.tops[t] - STACK && t + SIZE <= s.heap
  {
    hide Created, Fresh, Aligned;
    NewAlignment(s.heap, s.nextStack);
  }

  lemma RingGrows(s: Sys, s': Sys)
    requires InRing(s) && s.heap !in s.tops && s.heap > 0
    requires s'.tops == s.tops[s.heap := s.nextStack] && s'.ring == s.ring + [s.heap]
    ensures InRing(s') && s'.ring[0] == s.ring[0] && s.heap !in s.ring
    ensures forall t | t in s'.ring :: t == s.heap || t in s.ring
  {
  }

  /** Structures and stacks of all threads so far. */
  ghost predicate MineKept(s: Sys, m': Mem) {
    forall t, a: Word | t in s.tops && Mine(t, s.tops[t], a) :: Load(m', a) == Load(s.mem, a)
  }

  /** The same but for the link fields. */
  ghost predicate BodiesKept(s: Sys, m': Mem) {
    forall t, a: Word | t in s.tops && Mine(t, s.tops[t], a) && !(t <= a < t + CTXT) :: Load(m', a) == Load(s.mem, a)
  }

  lemma NewStructIsQuiet(s: Sys, id: Word)
    requires Layout(s) && s.heap + ALLOC + STACK <= s.nextStack
    ensures MineKept(s, NewStruct(s.mem, s.heap, id))
  {
    NewStructAt(s.mem, s.heap, id);
    hide NewStruct, Aligned;
  }

  /** thread_create's four link writes make the longer ring. */
  lemma CreateLinks(s: Sys, s': Sys, m0: Mem)
    requires Layout(s) && InRing(s) && Linked(s) && MineKept(s, m0) && 0 < s.heap && s.heap !in s.tops && Layout(s')
    requires s'.tops == s.tops[s.heap := s.nextStack] && s'.ring == s.ring + [s.heap]
    ensures InRing(s') && s'.ring[0] == s.ring[0] && Linked(s'.(mem := LinkIn(m0, s.ring[0], s.heap)))
    ensures forall a: Word | !IsCell(s'.tops.Keys, a) :: Load(LinkIn(m0, s.ring[0], s.heap), a) == Load(m0, a)
  {
    hide LinkIn, LinkMap, R.Distinct, R.NextLinks, R.PrevLinks, Addr, Aligned;
    RingGrows(s, s');
    HeadCells(s, m0);
    LinksAgree(s.mem, m0, s.tops.Keys, s.ring, NEXT);
    LinksAgree(s.mem, m0, s.tops.Keys, s.ring, PREV);
    hide MineKept, Layout;
    assert s.tops.Keys <= s'.tops.Keys;
    LayoutIsSpaced(s');
    LinkInMemory(m0, s'.tops.Keys, s.ring, s.heap);
  }

  lemma HeadCells(s: Sys, m': Mem)
    requires Layout(s) && MineKept(s, m')
    ensures forall t | t in s.tops ::
              && Load(m', Addr(t, NEXT)) == Load(s.mem, Addr(t, NEXT))
              && Load(m', Addr(t, PREV)) == Load(s.mem, Addr(t, PREV))
  {
    hide Aligned, Addr;
    forall t | t in s.tops
      ensures Load(m', Addr(t, NEXT)) == Load(s.mem, Addr(t, NEXT)) &&
          Load(m', Addr(t, PREV)) == Load(s.mem, Addr(t, PREV))
    {
      NoWrap(t, NEXT);
      NoWrap(t, PREV);
      assert Mine(t, s.tops[t], t + NEXT) && Mine(t, s.tops[t], t + PREV);
    }
  }

  lemma BodiesStay(s: Sys, s': Sys, m0: Mem, m1: Mem)
    requires MineKept(s, m0) && Layout(s') && s'.tops == s.tops[s.heap := s.nextStack] && s.heap !in s.tops
    requires s.heap + SIZE <= TWO32
    requires forall a: Word | !IsCell(s'.tops.Keys, a) :: Load(m1, a) == Load(m0, a)
    ensures BodiesKept(s, m1)
    ensures forall i | 0 <= i < 16 :: Load(m1, s.heap + CTXT + 4 * i) == Load(m0, s.heap + CTXT + 4 * i)
  {
    hide IsCell, Layout;
    forall t, a: Word | t in s.tops && Mine(t, s.tops[t], a) && !(t <= a < t + CTXT)
      ensures Load(m1, a) == Load(s.mem, a)
    {
      CellIsNobodys(s', t, a);
    }
    forall i | 0 <= i < 16
      ensures Load(m1, s.heap + CTXT + 4 * i) == Load(m0, s.heap + CTXT + 4 * i)
    {
      InMemory(s', s.heap);
      CellIsNobodys(s', s.heap, s.heap + CTXT + 4 * i);
    }
  }

  lemma InMemory(s: Sys, t: Word)
    requires Layout(s) && t in s.tops
    ensures t + SIZE <= s.heap
  {
  }

  /** The new stack and context frame lie outside everything older. */
  lemma NewStackIsQuiet(s: Sys, s': Sys, m1: Mem)
    requires Layout(s) && Layout(s') && InRing(s) && BodiesKept(s, m1) && s.heap + ALLOC + STACK <= s.nextStack
    requires s'.tops == s.tops[s.heap := s.nextStack]
    requires forall a: Word | !(s.heap + CTXT <= a < s.heap + SIZE) && !(s.nextStack - STACK <= a < s.nextStack) ::
        Load(s'.mem, a) == Load(m1, a)
    ensures HeadsKept(s'.(mem := m1), s'.mem) && OthersKept(s, s'.mem)
  {
    hide Aligned, R.Distinct;
  }

  /** thread_create up to its link writes. */
  lemma LinkedStruct(s: Sys, s': Sys, id: Word)
    requires Layout(s) && InRing(s) && Linked(s) && s.heap + ALLOC + STACK <= s.nextStack
    requires Layout(s') && s'.tops == s.tops[s.heap := s.nextStack] && s'.ring == s.ring + [s.heap] && s.heap !in s.tops
    ensures var m1 := LinkIn(NewStruct(s.mem, s.heap, id), s.ring[0], s.heap);
            && InRing(s') && s'.ring[0] == s.ring[0] && Linked(s'.(mem := m1)) && BodiesKept(s, m1)
            && (forall i | 0 <= i < 16 :: Load(m1, s.heap + CTXT + 4 * i) == 0)
  {
    var m0 := NewStruct(s.mem, s.heap, id);
    StackIsAligned(s);
    hide NewStruct, LinkIn, Linked, R.Distinct, IsCell, MineKept, BodiesKept, Layout;
    RingGrows(s, s');
    NewStructIsQuiet(s, id);
    NewStructAt(s.mem, s.heap, id);
    CreateLinks(s, s', m0);
    BodiesStay(s, s', m0, LinkIn(m0, s.ring[0], s.heap));
    hide InRing;
  }

  /** And from there to the end: stack, context and trap frame. */
  lemma StackFinishes(c: Code, s: Sys, s': Sys, m1: Mem, fn: Word, arg: Word)
    requires Compiled(c) && Layout(s) && Layout(s') && InRing(s) && InRing(s') && s.heap + ALLOC + STACK <= s.nextStack
    requires s'.tops == s.tops[s.heap := s.nextStack] && BodiesKept(s, m1) && Linked(s'.(mem := m1))
    requires forall i | 0 <= i < 16 :: Load(m1, s.heap + CTXT + 4 * i) == 0
    requires s'.mem == NewStack(c, m1, s.heap, s.nextStack, fn, arg)
    ensures Linked(s') && OthersKept(s, s'.mem)
    ensures Ready(c, s'.mem, s.heap, s.nextStack, Fresh(c, s.heap, s.nextStack, fn, arg))
  {
    hide NewStack, Linked, Ready, Fresh, R.Distinct, Compiled, Aligned, BodiesKept, HeadsKept, OthersKept, Layout,
        InRing;
    StackIsAligned(s);
    NewStackReady(c, m1, s.heap, s.nextStack, fn, arg);
    NewStackIsQuiet(s, s', m1);
    LayoutIgnoresMemory(s', m1);
    StaysLinked(s'.(mem := m1), s'.mem);
    assert s'.(mem := m1).(mem := s'.mem) == s';
  }

  lemma LayoutIgnoresMemory(s: Sys, m: Mem)
    ensures Layout(s.(mem := m)) == Layout(s) && InRing(s.(mem := m)) == InRing(s)
  {
  }

  lemma CreatedInMemory(c: Code, s: Sys, s': Sys, id: Word, fn: Word, arg: Word)
    requires Compiled(c) && Layout(s) && InRing(s) && Linked(s) && s.heap + ALLOC + STACK <= s.nextStack
    requires Layout(s') && s'.tops == s.tops[s.heap := s.nextStack] && s'.ring == s.ring + [s.heap] && s.heap !in s.tops
    requires s'.mem == Created(c, s.mem, s.ring[0], s.heap, id, s.nextStack, fn, arg)
    ensures InRing(s') && Linked(s') && OthersKept(s, s'.mem) && s'.ring[0] == s.ring[0]
    ensures Ready(c, s'.mem, s.heap, s.nextStack, Fresh(c, s.heap, s.nextStack, fn, arg))
  {
    hide NewStruct, NewStack, LinkIn, Linked, Ready, Fresh, R.Distinct, Compiled, Aligned, BodiesKept, OthersKept,
        Layout;
    LinkedStruct(s, s', id);
    StackIsAligned(s);
    StackFinishes(c, s, s', LinkIn(NewStruct(s.mem, s.heap, id), s.ring[0], s.heap), fn, arg);
  }

  /** thread_create puts the new thread at the end of the ring, ready to start as fn(arg) on a
      stack of its own, and disturbs no other. */
  lemma CreateAppends(c: Code, s: Sys, id: Word, fn: Word, arg: Word)
    requires Compiled(c) && Inv(c, s) && s.heap + ALLOC + STACK <= s.nextStack
    ensures var s', t := OnCreate(c, s, id, fn, arg), s.heap;
            && Inv(c, s') && s'.ring == s.ring + [t] && t !in s.tops
            && s'.parked == s.parked[t := Fresh(c, t, s.nextStack, fn, arg)]
            && Ready(c, s'.mem, t, s.nextStack, Fresh(c, t, s.nextStack, fn, arg))
  {
    var s', t := OnCreate(c, s, id, fn, arg), s.heap;
    hide Created, Linked, Ready, Fresh, R.Distinct, Compiled, Aligned, OthersKept, AllReady, Layout;
    LayoutAdds(c, s, id, fn, arg);
    CreatedInMemory(c, s, s', id, fn, arg);
    OthersStayReady(c, s, s'.mem);
    AllReadyAfterCreate(c, s, s', Fresh(c, t, s.nextStack, fn, arg));
  }

  /** The call comes back to its caller with the new thread, the last of the ring, in a0 and with
      interrupts on; no other register changes. */
  ghost predicate ReturnsThread(s: Sys, s': Sys) {
    && s'.pc == s.pc && s'.st.supervisor && s'.st.sie
    && s'.ring != [] && s'.x[A0] == R.Last(s'.ring) && R.Last(s'.ring) !in s.tops
    && forall r: Reg | r != A0 :: s'.x[r] == s.x[r]
  }

  lemma CreatorGetsThread(c: Code, s: Sys, id: Word, fn: Word, arg: Word)
    requires Compiled(c) && Inv(c, s) && s.heap + ALLOC + STACK <= s.nextStack
    ensures ReturnsThread(s, OnCreate(c, s, id, fn, arg))
  {
    hide Created, Linked, Ready, Fresh, R.Distinct, Compiled, Aligned, AllReady;
  }

  /** The structure of a new thread says whose it is: the magic number and the id. */
  lemma NewThreadIsNamed(c: Code, s: Sys, id: Word, fn: Word, arg: Word)
    requires Compiled(c) && Inv(c, s) && s.heap + ALLOC + STACK <= s.nextStack
    ensures var s', t := OnCreate(c, s, id, fn, arg), s.heap;
            Load(s'.mem, t) == 0x5c95bec3 && Load(s'.mem, t + 4) == id
  {
    hide Inv, NewStruct, LinkIn, NewStack, Linked, Ready, Fresh, R.Distinct, AllReady, IsCell, MineKept, Layout, InRing,
        Compiled, Aligned;
    var s', t, m0 := OnCreate(c, s, id, fn, arg), s.heap, NewStruct(s.mem, s.heap, id);
    InvParts(c, s);
    LayoutAdds(c, s, id, fn, arg);
    StackIsAligned(s);
    NewStructIsQuiet(s, id);
    CreateLinks(s, s', m0);
    NameIsNoCell(s', t);
    NewStructNamed(s.mem, t, id);
    var m1 := LinkIn(m0, s.ring[0], t);
    LinkedStruct(s, s', id);
    NewStackReady(c, m1, t, s.nextStack, fn, arg);
  }

  lemma InvParts(c: Code, s: Sys)
    requires Inv(c, s)
    ensures Layout(s) && InRing(s) && Linked(s) && s.x[TP] == s.ring[0]
  {
  }

  lemma NameIsNoCell(s: Sys, t: Word)
    requires Layout(s) && t in s.tops
    ensures t + 4 < TWO32 && !IsCell(s.tops.Keys, t) && !IsCell(s.tops.Keys, t + 4)
  {
    forall u | u in s.tops
      ensures t != Addr(u, NEXT) && t != Addr(u, PREV) && t + 4 != Addr(u, NEXT) && t + 4 != Addr(u, PREV)
    {
      NoWrap(u, NEXT);
      NoWrap(u, PREV);
    }
  }

  lemma NewStructNamed(m: Mem, t: Word, id: Word)
    requires t + ALLOC <= TWO32
    ensures Load(NewStruct(m, t, id), t) == 0x5c95bec3 && Load(NewStruct(m, t, id), t + 4) == id
  {
    NoWrap(t, 4);
    hide Fill, Addr;
  }

  lemma StackIsAligned(s: Sys)
    requires Layout(s)
    ensures Aligned(STACK, s.nextStack) && 0 < s.heap && s.nextStack <= MEMORY_TOP
  {
  }

  lemma AllReadyAfterCreate(c: Code, s: Sys, s': Sys, snap: Snap)
    requires InRing(s) && InRing(s') && s'.ring == s.ring + [s.heap] && s.heap !in s.tops
    requires s'.tops == s.tops[s.heap := s.nextStack] && s'.parked == s.parked[s.heap := snap]
    requires Ready(c, s'.mem, s.heap, s.nextStack, snap)
    requires forall t | t in s.ring && t != s.ring[0] :: t in s.parked && Ready(c, s'.mem, t, s.tops[t], s.parked[t])
    ensures AllReady(c, s')
  {
    hide Ready, R.Distinct;
  }
}
