/** example/ex10-threads-cooperative.c: threads that give way by calling context_switch, and
    that start through context_entry. */
module Cooperative {
  import opened Common
  import opened Rv32
  import opened ContextSwitch
  import opened ThreadSystem

  /** A thread that calls context_switch finds ra, sp, gp, tp and s0 to s11 as they were when it
      is switched back to, provided its context frame was left alone. */
  lemma YieldComesBack(p: Point, t: Word, m': Mem, x': Regs)
    requires t + SIZE <= TWO32 && p.x[A0] == Addr(t, CTXT) && x'[A1] == Addr(t, CTXT)
    requires forall a: Word | t + CTXT <= a < t + SIZE :: Load(m', a) == Load(SaveContext(p).mem, a)
    ensures var y := LoadContext(Point(x', m')).x;
            forall r: Reg | r == RA || r == SP || Global(r) :: y[r] == p.x[r]
  {
    var s := Snap(p.x, 0, p.x);
    CframeIsProper();
    CframeRows();
    ContextInside(t);
    StoresStayInside(p.mem, p.x, t + CTXT, CFRAME, 64);
    hide CFRAME, Addr, ContextRow, Stores, LoadContext;
    assert InContext(m', t, s);
    LoadedContext(m', x', t, s);
  }

  const CTXT_S0 := 16 + 0x10
  const CTXT_S1 := 16 + 0x14
  const CTXT_S2 := 16 + 0x18

  /** The context that thread_create writes into a cleared thread structure. */
  function StartContext(m: Mem, t: Word, sp: Word, entry: Word, fn: Word, arg: Word): Mem {
    var m1 := Put(Put(m, Addr(t, CTXT_TP), t), Addr(t, CTXT_SP), sp);
    Put(Put(Put(Put(m1, Addr(t, CTXT_S0), arg), Addr(t, CTXT_S1), 0), Addr(t, CTXT_S2), fn), Addr(t, CTXT_PC), entry)
  }

  function StartRegs(t: Word, sp: Word, entry: Word, fn: Word, arg: Word): Regs {
    var zeros: Regs := seq(32, _ => 0);
    Set(Set(Set(Set(Set(zeros, RA, entry), SP, sp), TP, t), S0, arg), S2, fn)
  }

  /** context_entry, as far as the first instruction of the thread; `back` is where its call
      returns, the jump to thread_exit. */
  function ContextEntry(x: Regs, back: Word): User {
    var y := Set(Set(x, A0, x[S0]), A1, x[S1]);
    User(Set(y, RA, back), y[S2])
  }

  /** The words of that context. */
  function StartWord(i: nat, t: Word, sp: Word, entry: Word, fn: Word, arg: Word): Word {
    if i == 0 then entry else if i == 1 then sp else if i == 3 then t else if i == 4 then arg else if i == 6 then fn
        else 0
  }

  lemma StartWords(m: Mem, t: Word, sp: Word, entry: Word, fn: Word, arg: Word)
    requires t + SIZE <= TWO32 && forall i | 0 <= i < 16 :: Load(m, t + CTXT + 4 * i) == 0
    ensures forall i | 0 <= i < 16 ::
        Load(StartContext(m, t, sp, entry, fn, arg), t + CTXT + 4 * i) == StartWord(i, t, sp, entry, fn, arg)
  {
    NoWrap(t, CTXT_PC);
    NoWrap(t, CTXT_SP);
    NoWrap(t, CTXT_TP);
    NoWrap(t, CTXT_S0);
    NoWrap(t, CTXT_S1);
    NoWrap(t, CTXT_S2);
    hide Addr;
  }

  lemma StartContextAt(m: Mem, t: Word, sp: Word, entry: Word, fn: Word, arg: Word)
    requires t + SIZE <= TWO32 && forall i | 0 <= i < 16 :: Load(m, t + CTXT + 4 * i) == 0
    ensures var y := StartRegs(t, sp, entry, fn, arg); InContext(StartContext(m, t, sp, entry, fn, arg), t,
        Snap(y, 0, y))
  {
    CframeRows();
    NoWrap(t, CTXT);
    StartWords(m, t, sp, entry, fn, arg);
    hide CFRAME, Addr, StartContext;
    var m', y := StartContext(m, t, sp, entry, fn, arg), StartRegs(t, sp, entry, fn, arg);
    forall i | 0 <= i < |CFRAME|
      ensures Load(m', Addr(Addr(t, CTXT), CFRAME[i].off)) == y[CFRAME[i].reg]
    {
      NoWrap(t + CTXT, 4 * i);
      assert Load(m', t + CTXT + 4 * i) == StartWord(i, t, sp, entry, fn, arg);
      assert i == ContextRow(CFRAME[i].reg);
    }
  }

  /** The first switch to a new thread goes to context_entry, which calls fn(arg, 0) on the new
      stack, with the jump to thread_exit to return to. */
  lemma NewThreadEnters(m: Mem, m': Mem, t: Word, sp: Word, entry: Word, back: Word, fn: Word, arg: Word, x: Regs)
    requires t + SIZE <= TWO32 && x[A1] == Addr(t, CTXT)
    requires forall i | 0 <= i < 16 :: Load(m, t + CTXT + 4 * i) == 0
    requires forall a: Word | t + CTXT <= a < t + SIZE :: Load(m', a) == Load(StartContext(m, t, sp, entry, fn, arg), a)
    ensures var y := LoadContext(Point(x, m')).x;
            var u := ContextEntry(y, back);
            && y[RA] == entry && u.pc == fn && u.x[A0] == arg && u.x[A1] == 0
            && u.x[SP] == sp && u.x[TP] == t && u.x[RA] == back
  {
    var y := StartRegs(t, sp, entry, fn, arg);
    StartContextAt(m, t, sp, entry, fn, arg);
    ContextInside(t);
    hide CFRAME, Addr, LoadContext, StartContext;
    assert InContext(m', t, Snap(y, 0, y));
    LoadedContext(m', x, t, Snap(y, 0, y));
  }
}
