/** The few RV32 instructions that the trap and context-switch code uses, and what a block of
    stores to, or loads from, a stack frame does. */
module Rv32 {
  import opened Common

  type Reg = r: int | 0 <= r < 32

  const ZERO: Reg := 0
  const RA: Reg := 1
  const SP: Reg := 2
  const GP: Reg := 3
  const TP: Reg := 4
  const T0: Reg := 5
  const T1: Reg := 6
  const T2: Reg := 7
  const S0: Reg := 8
  const S1: Reg := 9
  const A0: Reg := 10
  const A1: Reg := 11
  const A2: Reg := 12
  const A3: Reg := 13
  const A4: Reg := 14
  const A5: Reg := 15
  const A6: Reg := 16
  const A7: Reg := 17
  const S2: Reg := 18
  const S3: Reg := 19
  const S4: Reg := 20
  const S5: Reg := 21
  const S6: Reg := 22
  const S7: Reg := 23
  const S8: Reg := 24
  const S9: Reg := 25
  const S10: Reg := 26
  const S11: Reg := 27
  const T3: Reg := 28
  const T4: Reg := 29
  const T5: Reg := 30
  const T6: Reg := 31

  /** The 32 integer registers; register 0 reads as zero. */
  type Regs = x: seq<Word> | |x| == 32 && x[0] == 0 witness seq(32, _ => 0)

  function Set(x: Regs, r: Reg, v: Word): Regs
    requires r != ZERO
  {
    x[r := v]
  }

  /** Word memory by byte address. */
  type Mem = map<Word, Word>

  function Load(m: Mem, a: Word): Word { if a in m then m[a] else 0 }

  function Put(m: Mem, a: Word, v: Word): Mem { m[a := v] }

  function Addr(base: Word, off: nat): Word { (base + off) % TWO32 }

  /** A row of a frame: register and offset of one `sw` or `lw`. */
  datatype Row = Row(reg: Reg, off: nat)

  type Table = seq<Row>

  /** The rows name different registers, different aligned offsets, and not the zero register. */
  predicate Proper(t: Table) {
    && (forall i | 0 <= i < |t| :: t[i].reg != ZERO && t[i].off % 4 == 0 && t[i].off < 0x1_0000)
    && (forall i, j | 0 <= i < j < |t| :: t[i].reg != t[j].reg && t[i].off != t[j].off)
  }

  /** `sw reg, off(base)` for each row. */
  function Stores(m: Mem, x: Regs, base: Word, t: Table): Mem {
    if t == [] then m
    else
      var last := t[|t| - 1];
      Put(Stores(m, x, base, t[..|t| - 1]), Addr(base, last.off), x[last.reg])
  }

  /** `lw reg, off(base)` for each row; `base` is the value of the base register, which only
      the last row may overwrite. */
  function Loads(m: Mem, x: Regs, base: Word, t: Table): Regs
    requires forall i | 0 <= i < |t| :: t[i].reg != ZERO
  {
    if t == [] then x
    else
      var last := t[|t| - 1];
      Loads(m, x, base, t[..|t| - 1])[last.reg := Load(m, Addr(base, last.off))]
  }

  lemma AddrInjective(base: Word, a: nat, b: nat)
    requires a < 0x1_0000 && b < 0x1_0000 && a != b
    ensures Addr(base, a) != Addr(base, b)
  {
  }

  lemma {:induction false} StoresAt(m: Mem, x: Regs, base: Word, t: Table)
    requires Proper(t)
    ensures forall i | 0 <= i < |t| :: Load(Stores(m, x, base, t), Addr(base, t[i].off)) == x[t[i].reg]
    ensures forall a: Word | (forall i | 0 <= i < |t| :: a != Addr(base, t[i].off)) ::
        Load(Stores(m, x, base, t), a) == Load(m, a)
  {
    if t != [] {
      var init, last := t[..|t| - 1], t[|t| - 1];
      StoresAt(m, x, base, init);
      forall i | 0 <= i < |init|
        ensures Addr(base, init[i].off) != Addr(base, last.off)
      {
        assert init[i] == t[i];
        AddrInjective(base, init[i].off, last.off);
      }
      assert forall i | 0 <= i < |init| :: t[i] == init[i];
    }
  }

  lemma {:induction false} LoadsAt(m: Mem, x: Regs, base: Word, t: Table)
    requires Proper(t)
    ensures forall i | 0 <= i < |t| :: Loads(m, x, base, t)[t[i].reg] == Load(m, Addr(base, t[i].off))
    ensures forall r: Reg | (forall i | 0 <= i < |t| :: r != t[i].reg) :: Loads(m, x, base, t)[r] == x[r]
  {
    if t != [] {
      var init, last := t[..|t| - 1], t[|t| - 1];
      LoadsAt(m, x, base, init);
      assert forall i | 0 <= i < |init| :: t[i] == init[i];
    }
  }

  /** A block of `sw reg, off(base)`. */
  method Save(mem: Mem, x: Regs, base: Reg, t: Table) returns (m: Mem)
    ensures m == Stores(mem, x, x[base], t)
  {
    m := mem;
    var i := 0;
    while i < |t|
      invariant 0 <= i <= |t| && m == Stores(mem, x, x[base], t[..i])
    {
      m := Put(m, Addr(x[base], t[i].off), x[t[i].reg]);
      assert t[..i + 1][..i] == t[..i];
      i := i + 1;
    }
    assert t[..i] == t;
  }

  /** A block of `lw reg, off(base)`; none of them loads the base register. */
  method Restore(mem: Mem, x: Regs, base: Reg, t: Table) returns (y: Regs)
    requires forall i | 0 <= i < |t| :: t[i].reg != ZERO && t[i].reg != base
    ensures y == Loads(mem, x, x[base], t) && y[base] == x[base]
  {
    y := x;
    var i := 0;
    while i < |t|
      invariant 0 <= i <= |t| && y[base] == x[base]
      invariant y == Loads(mem, x, x[base], t[..i])
    {
      y := Set(y, t[i].reg, Load(mem, Addr(y[base], t[i].off)));
      assert t[..i + 1][..i] == t[..i];
      i := i + 1;
    }
    assert t[..i] == t;
  }
}
