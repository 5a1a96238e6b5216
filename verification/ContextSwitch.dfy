/** hw/src/trap-entry-single-stack.S and hw/src/context-switch.S: one thread is interrupted,
    its registers split between a trap frame on its own stack and the context frame in its
    thread structure, and a thread parked earlier continues. */
module ContextSwitch {
  import opened Common
  import opened Rv32
  import opened XosTrap

  // cframe_t, as context_switch stores and loads it. tframe_t has the rows CALLER_SAVED and
  // the pc after them.
  const CFRAME: Table := [
    Row(RA, 0x00), Row(SP, 0x04), Row(GP, 0x08), Row(TP, 0x0C),
    Row(S0, 0x10), Row(S1, 0x14), Row(S2, 0x18), Row(S3, 0x1C),
    Row(S4, 0x20), Row(S5, 0x24), Row(S6, 0x28), Row(S7, 0x2C),
    Row(S8, 0x30), Row(S9, 0x34), Row(S10, 0x38), Row(S11, 0x3C)]

  const NEXT := 8   // offsets in thread_t
  const PREV := 12
  const CTXT := 16
  const SIZE := 80  // sizeof(thread_t)

  /** What the compiler made of interrupt_handler: it may keep a stack frame of `frame` bytes in
      which it saves `saved`, and `ret` is where its call of context_switch returns. A tail
      call has no frame and returns straight to trap_exit. */
  datatype Code = Code(trapExit: Word, threadExit: Word, ret: Word, frame: nat, saved: Table)

  predicate IsSaved(r: Reg) { r == S0 || r == S1 || S2 <= r <= S11 }

  ghost predicate Compiled(c: Code) {
    && c.frame % 4 == 0 && c.frame <= 2048 && Proper(c.saved)
    && (forall i | 0 <= i < |c.saved| :: c.saved[i].off < c.frame && (c.saved[i].reg == RA || IsSaved(c.saved[i].reg)))
    && (c.ret == c.trapExit ==> c.frame == 0 && c.saved == [])
    && (c.ret != c.trapExit ==> exists i | 0 <= i < |c.saved| :: c.saved[i].reg == RA)
  }

  predicate InTable(t: Table, r: Reg) { exists i | 0 <= i < |t| :: t[i].reg == r }

  /** Registers and memory at a point of the switch. */
  datatype Point = Point(x: Regs, mem: Mem)

  // ---- Away from the interrupted thread ----

  /** trap_entry up to and including `jal interrupt_handler`. */
  function Enter(c: Code, p: Point, sepc: Word, scause: Word): Point {
    var sp := Addr(p.x[SP], TWO32 - FRAME);
    var x1 := Set(p.x, SP, sp);
    var m1 := Stores(p.mem, x1, sp, CALLER_SAVED);
    Point(Set(Set(Set(x1, T0, sepc), T1, scause), RA, c.trapExit), Put(m1, Addr(sp, PC_OFF), sepc))
  }

  /** The prologue of interrupt_handler. */
  function Prologue(c: Code, p: Point): Point {
    var sp := Addr(p.x[SP], TWO32 - c.frame % TWO32);
    Point(Set(p.x, SP, sp), Stores(p.mem, Set(p.x, SP, sp), sp, c.saved))
  }

  /** interrupt_handler calls context_switch(&current->ctxt, &current->next->ctxt), having used
      the registers it may use. */
  function CallSwitch(c: Code, p: Point, junk: Regs): Point {
    var x1: Regs := seq(32, r requires 0 <= r < 32 => if IsCallerSaved(r) || (IsSaved(r) && InTable(c.saved, r))
        then junk[r] else p.x[r]);
    var next := Load(p.mem, Addr(p.x[TP], NEXT));
    Point(Set(Set(Set(x1, A0, Addr(p.x[TP], CTXT)), A1, Addr(next, CTXT)), RA, c.ret), p.mem)
  }

  /** The first half of context_switch. */
  function SaveContext(p: Point): Point { p.(mem := Stores(p.mem, p.x, p.x[A0], CFRAME)) }

  function Away(c: Code, p: Point, sepc: Word, scause: Word, junk: Regs): Point {
    SaveContext(CallSwitch(c, Prologue(c, Enter(c, p, sepc, scause)), junk))
  }

  // ---- Back into a parked thread ----

  datatype User = Stuck | User(x: Regs, pc: Word)

  /** The second half of context_switch. */
  function LoadContext(p: Point): Point
  {
    CframeIsProper();
    p.(x := Loads(p.mem, p.x, p.x[A1], CFRAME))
  }

  /** The `ret` of context_switch and on to the sret: through the epilogue of
      interrupt_handler, unless ra is trap_exit itself, and then trap_exit. */
  function Resume(c: Code, p: Point): User
    requires Compiled(c)
  {
    var x1 := if p.x[RA] == c.trapExit then p.x
              else
                var y := Loads(p.mem, p.x, p.x[SP], c.saved);
                Set(y, SP, Addr(y[SP], c.frame));
    if p.x[RA] != c.trapExit && (p.x[RA] != c.ret || x1[RA] != c.trapExit) then Stuck else TrapExit(p.mem, x1)
  }

  function TrapExit(m: Mem, x: Regs): User {
    TablesAreProper();
    var sp := x[SP];
    var pc := Load(m, Addr(sp, PC_OFF));
    var y := Loads(m, Set(x, T0, pc), sp, CALLER_SAVED);
    User(Set(y, SP, Addr(sp, FRAME)), pc)
  }

  // ---- A parked thread ----

  /** The registers and pc a thread is to continue with, and what context_switch put in its
      context frame. */
  datatype Snap = Snap(x: Regs, pc: Word, y: Regs)

  function TrapSp(s: Snap): Word { Addr(s.x[SP], TWO32 - FRAME) }

  predicate Global(r: Reg) { r == GP || r == TP || IsSaved(r) }

  ghost predicate InContext(m: Mem, t: Word, s: Snap) {
    forall i | 0 <= i < |CFRAME| :: Load(m, Addr(Addr(t, CTXT), CFRAME[i].off)) == s.y[CFRAME[i].reg]
  }

  ghost predicate InTrapFrame(m: Mem, s: Snap) {
    && (forall i | 0 <= i < |CALLER_SAVED| :: Load(m, Addr(TrapSp(s), CALLER_SAVED[i].off)) == s.x[CALLER_SAVED[i].reg])
    && Load(m, Addr(TrapSp(s), PC_OFF)) == s.pc
  }

  ghost predicate InHandler(c: Code, m: Mem, s: Snap) {
    forall i | 0 <= i < |c.saved| ::
      Load(m, Addr(s.y[SP], c.saved[i].off)) == if c.saved[i].reg == RA then c.trapExit else s.x[c.saved[i].reg]
  }

  /** Memory holds thread `t` ready to continue as `s`: either trap_exit is next, or the
      epilogue of interrupt_handler. */
  ghost predicate Saved(c: Code, m: Mem, t: Word, s: Snap) {
    && InContext(m, t, s) && InTrapFrame(m, s)
    && if s.y[RA] == c.trapExit then
         s.y[SP] == TrapSp(s) && forall r: Reg | Global(r) :: s.y[r] == s.x[r]
       else
         && s.y[RA] == c.ret && s.y[SP] == Addr(TrapSp(s), TWO32 - c.frame % TWO32) && InHandler(c, m, s)
         && forall r: Reg | Global(r) :: s.y[r] == s.x[r] || (IsSaved(r) && InTable(c.saved, r))
  }

  function ContextRow(r: Reg): nat
    requires r == RA || r == SP || Global(r)
  {
    if r == RA then 0 else if r == SP then 1 else if r == GP then 2 else if r == TP then 3 else if r <= S1
        then r - S0 + 4 else r - S2 + 6
  }

  lemma CframeRows()
    ensures forall i | 0 <= i < |CFRAME| ::
              var r := CFRAME[i].reg;
              CFRAME[i].off == 4 * i && (r == RA || r == SP || Global(r)) && ContextRow(r) == i
    ensures |CFRAME| == 16
    ensures forall r: Reg | r == RA || r == SP || Global(r) ::
              ContextRow(r) < |CFRAME| && CFRAME[ContextRow(r)].reg == r
  {
  }

  lemma CframeIsProper()
    ensures Proper(CFRAME)
  {
    CframeRows();
    hide CFRAME;
  }

  lemma EveryRegister(r: Reg)
    ensures r == ZERO || r == SP || IsCallerSaved(r) || Global(r)
    ensures !(IsCallerSaved(r) && (Global(r) || r == SP)) && !(Global(r) && (r == RA || r == SP))
  {
  }

  lemma BackAndForth(a: Word, n: nat)
    ensures Addr(Addr(a, TWO32 - n % TWO32), n) == a
  {
  }

  // ---- Continuing a parked thread ----

  /** context_switch loads the context frame and nothing else. */
  lemma LoadedContext(m: Mem, x: Regs, t: Word, s: Snap)
    requires InContext(m, t, s) && x[A1] == Addr(t, CTXT)
    ensures var y := LoadContext(Point(x, m)).x;
            forall r: Reg | r == RA || r == SP || Global(r) :: y[r] == s.y[r]
  {
    CframeIsProper();
    CframeRows();
    LoadsAt(m, x, x[A1], CFRAME);
    hide CFRAME, Addr, ContextRow, Loads;
    var y := LoadContext(Point(x, m)).x;
    forall r: Reg | r == RA || r == SP || Global(r)
      ensures y[r] == s.y[r]
    {
      assert CFRAME[ContextRow(r)].reg == r;
    }
  }

  /** trap_exit completes a register file whose callee-saved half is right. */
  lemma TrapExitCompletes(m: Mem, x: Regs, s: Snap)
    requires InTrapFrame(m, s) && x[SP] == TrapSp(s) && forall r: Reg | Global(r) :: x[r] == s.x[r]
    ensures TrapExit(m, x) == User(s.x, s.pc)
  {
    TablesAreProper();
    RowsCoverRegisters();
    BackAndForth(s.x[SP], FRAME);
    hide CALLER_SAVED, CALLEE_SAVED, Addr;
    LoadsAt(m, Set(x, T0, s.pc), x[SP], CALLER_SAVED);
    var out := TrapExit(m, x).x;
    forall r: Reg
      ensures out[r] == s.x[r]
    {
      EveryRegister(r);
      if IsCallerSaved(r) {
        assert CALLER_SAVED[RowOf(r)].reg == r;
      }
    }
    assert out == s.x;
  }

  /** The epilogue of interrupt_handler. */
  lemma EpilogueRestores(c: Code, m: Mem, x: Regs, s: Snap)
    requires Compiled(c) && InHandler(c, m, s) && c.ret != c.trapExit
    requires x[SP] == s.y[SP] == Addr(TrapSp(s), TWO32 - c.frame % TWO32)
    requires forall r: Reg | Global(r) :: x[r] == s.x[r] || (IsSaved(r) && InTable(c.saved, r))
    ensures var y := Loads(m, x, x[SP], c.saved);
            y[RA] == c.trapExit && Addr(y[SP], c.frame) == TrapSp(s) && forall r: Reg | Global(r) :: y[r] == s.x[r]
  {
    LoadsAt(m, x, x[SP], c.saved);
    BackAndForth(TrapSp(s), c.frame);
    hide Addr, Loads;
    var y := Loads(m, x, x[SP], c.saved);
    forall r: Reg | Global(r)
      ensures y[r] == s.x[r]
    {
      if InTable(c.saved, r) {
        var i :| 0 <= i < |c.saved| && c.saved[i].reg == r;
        assert y[c.saved[i].reg] == Load(m, Addr(x[SP], c.saved[i].off));
      }
    }
    var i :| 0 <= i < |c.saved| && c.saved[i].reg == RA;
    assert y[c.saved[i].reg] == Load(m, Addr(x[SP], c.saved[i].off));
  }

  /** A parked thread continues with exactly the registers and the pc it is to have, whatever
      the registers of the thread that switches to it. */
  lemma SavedResumes(c: Code, m: Mem, x: Regs, t: Word, s: Snap)
    requires Compiled(c) && Saved(c, m, t, s) && x[A1] == Addr(t, CTXT)
    ensures Resume(c, LoadContext(Point(x, m))) == User(s.x, s.pc)
  {
    LoadedContext(m, x, t, s);
    var p := LoadContext(Point(x, m));
    hide LoadContext, CFRAME, InContext, InTrapFrame, InHandler, Addr, TrapSp, TrapExit;
    if s.y[RA] == c.trapExit {
      TrapExitCompletes(m, p.x, s);
    } else {
      EpilogueRestores(c, m, p.x, s);
      var y := Loads(m, p.x, p.x[SP], c.saved);
      TrapExitCompletes(m, Set(y, SP, Addr(y[SP], c.frame)), s);
    }
  }

  // ---- Parking a thread ----

  /** Stack that an interrupt needs below sp. */
  function Room(c: Code): nat { FRAME + c.frame }

  /** Where an interrupt of the thread at `t` with stack pointer `sp` writes. */
  predicate Touched(c: Code, t: Word, sp: Word, a: Word) {
    t + CTXT <= a < t + SIZE || sp - Room(c) <= a < sp
  }

  /** The thread structure lies in memory, apart from the stack in use. */
  predicate Placed(c: Code, t: Word, sp: Word) {
    && t % 4 == 0 && sp % 4 == 0 && t + SIZE <= TWO32 && Room(c) <= sp
    && (t + SIZE <= sp - Room(c) || sp <= t)
  }

  lemma NoWrap(base: Word, off: nat)
    ensures base + off < TWO32 ==> Addr(base, off) == base + off
    ensures off <= base ==> Addr(base, TWO32 - off % TWO32) == base - off
  {
  }

  /** A block of stores whose offsets are below `n` changes nothing outside [base, base + n). */
  lemma StoresStayInside(m: Mem, x: Regs, base: Word, tab: Table, n: nat)
    requires Proper(tab) && base + n <= TWO32 && forall i | 0 <= i < |tab| :: tab[i].off < n
    ensures forall i | 0 <= i < |tab| :: base <= Addr(base, tab[i].off) < base + n
    ensures forall i | 0 <= i < |tab| :: Load(Stores(m, x, base, tab), Addr(base, tab[i].off)) == x[tab[i].reg]
    ensures forall a: Word | !(base <= a < base + n) :: Load(Stores(m, x, base, tab), a) == Load(m, a)
  {
    StoresAt(m, x, base, tab);
    forall i | 0 <= i < |tab|
      ensures base <= Addr(base, tab[i].off) < base + n
    {
      NoWrap(base, tab[i].off);
    }
    hide Addr, Stores;
  }

  lemma EnterSaves(c: Code, p: Point, sepc: Word, scause: Word)
    requires FRAME <= p.x[SP]
    ensures var q, s := Enter(c, p, sepc, scause), Snap(p.x, sepc, p.x);
            && InTrapFrame(q.mem, s) && TrapSp(s) == p.x[SP] - FRAME == q.x[SP] && q.x[RA] == c.trapExit
            && (forall r: Reg | Global(r) :: q.x[r] == p.x[r])
            && (forall a: Word | !(p.x[SP] - FRAME <= a < p.x[SP]) :: Load(q.mem, a) == Load(p.mem, a))
  {
    var sp := p.x[SP] - FRAME;
    NoWrap(p.x[SP], FRAME);
    assert Addr(p.x[SP], TWO32 - FRAME) == sp;
    TablesAreProper();
    RowsCoverRegisters();
    DistinctOffsets(sp);
    NoWrap(sp, PC_OFF);
    var x1 := Set(p.x, SP, sp);
    hide CALLER_SAVED, CALLEE_SAVED, Addr, Stores, RowOf;
    StoresStayInside(p.mem, x1, sp, CALLER_SAVED, FRAME);
  }

  lemma PrologueSaves(c: Code, p: Point, s: Snap)
    requires Compiled(c) && c.frame <= p.x[SP] && InTrapFrame(p.mem, s) && TrapSp(s) == p.x[SP] &&
        s.x[SP] == p.x[SP] + FRAME
    requires p.x[RA] == c.trapExit && forall r: Reg | Global(r) :: p.x[r] == s.x[r]
    ensures var q := Prologue(c, p);
            && InTrapFrame(q.mem, s) && q.x[SP] == p.x[SP] - c.frame == Addr(TrapSp(s), TWO32 - c.frame % TWO32)
            && InHandler(c, q.mem, s.(y := q.x))
            && (forall r: Reg | Global(r) :: q.x[r] == s.x[r])
            && (forall a: Word | !(p.x[SP] - c.frame <= a < p.x[SP]) :: Load(q.mem, a) == Load(p.mem, a))
  {
    var sp := p.x[SP] - c.frame;
    NoWrap(p.x[SP], c.frame);
    assert Addr(p.x[SP], TWO32 - c.frame % TWO32) == sp;
    var x1 := Set(p.x, SP, sp);
    StoresStayInside(p.mem, x1, sp, c.saved, c.frame);
    TrapFrameAbove(s);
    hide CALLER_SAVED, Addr, Stores, TrapSp;
  }

  /** The words of the trap frame lie at or above its stack pointer. */
  lemma TrapFrameAbove(s: Snap)
    requires FRAME <= s.x[SP]
    ensures TrapSp(s) == s.x[SP] - FRAME
    ensures forall i | 0 <= i < |CALLER_SAVED| :: TrapSp(s) <= Addr(TrapSp(s), CALLER_SAVED[i].off) < s.x[SP]
    ensures TrapSp(s) <= Addr(TrapSp(s), PC_OFF) < s.x[SP]
  {
    NoWrap(s.x[SP], FRAME);
    RowsCoverRegisters();
    NoWrap(TrapSp(s), PC_OFF);
    forall i | 0 <= i < |CALLER_SAVED|
      ensures Addr(TrapSp(s), CALLER_SAVED[i].off) == TrapSp(s) + CALLER_SAVED[i].off
    {
      NoWrap(TrapSp(s), CALLER_SAVED[i].off);
    }
    hide CALLER_SAVED, RowOf;
  }

  /** What a parked thread needs of memory: its context frame and the stack just below its
      stack pointer. */
  lemma SavedNeedsOnly(c: Code, m: Mem, m': Mem, t: Word, s: Snap)
    requires Compiled(c) && Placed(c, t, s.x[SP]) && Saved(c, m, t, s)
    requires forall a: Word | Touched(c, t, s.x[SP], a) :: Load(m', a) == Load(m, a)
    ensures Saved(c, m', t, s)
  {
    TrapFrameAbove(s);
    ContextInside(t);
    if s.y[RA] != c.trapExit {
      HandlerFrameInside(c, s);
    }
    hide CALLER_SAVED, CFRAME, Addr, TrapSp;
  }

  lemma ContextInside(t: Word)
    requires t + SIZE <= TWO32
    ensures Addr(t, CTXT) == t + CTXT
    ensures forall i | 0 <= i < |CFRAME| :: t + CTXT <= Addr(Addr(t, CTXT), CFRAME[i].off) < t + SIZE
  {
    CframeRows();
    NoWrap(t, CTXT);
    forall i | 0 <= i < |CFRAME|
      ensures t + CTXT <= Addr(Addr(t, CTXT), CFRAME[i].off) < t + SIZE
    {
      NoWrap(t + CTXT, CFRAME[i].off);
    }
  }

  lemma HandlerFrameInside(c: Code, s: Snap)
    requires Compiled(c) && Room(c) <= s.x[SP] && s.y[SP] == Addr(TrapSp(s), TWO32 - c.frame % TWO32)
    ensures s.y[SP] == s.x[SP] - Room(c)
    ensures forall i | 0 <= i < |c.saved| :: s.x[SP] - Room(c) <= Addr(s.y[SP], c.saved[i].off) < s.x[SP] - FRAME
  {
    NoWrap(s.x[SP], FRAME);
    NoWrap(TrapSp(s), c.frame);
    forall i | 0 <= i < |c.saved|
      ensures s.x[SP] - Room(c) <= Addr(s.y[SP], c.saved[i].off) < s.x[SP] - FRAME
    {
      NoWrap(s.y[SP], c.saved[i].off);
    }
  }

  /** The snapshot an interrupt takes. */
  function Taken(c: Code, p: Point, sepc: Word, scause: Word, junk: Regs): Snap {
    Snap(p.x, sepc, CallSwitch(c, Prologue(c, Enter(c, p, sepc, scause)), junk).x)
  }

  /** What the call of context_switch leaves of the registers. */
  lemma CallSwitchKeeps(c: Code, p: Point, junk: Regs)
    requires Compiled(c)
    ensures var x := CallSwitch(c, p, junk).x;
            && x[SP] == p.x[SP] && x[RA] == c.ret && x[TP] == p.x[TP]
            && x[A0] == Addr(p.x[TP], CTXT) && x[A1] == Addr(Load(p.mem, Addr(p.x[TP], NEXT)), CTXT)
            && forall r: Reg | Global(r) :: x[r] == p.x[r] || (IsSaved(r) && InTable(c.saved, r))
  {
  }

  /** The stores into the context frame leave the stack alone. */
  lemma SaveContextKeeps(c: Code, p: Point, t: Word, s: Snap)
    requires Compiled(c) && Placed(c, t, s.x[SP]) && p.x == s.y && s.y[A0] == Addr(t, CTXT)
    requires InTrapFrame(p.mem, s) && InHandler(c, p.mem, s) && s.y[SP] == Addr(TrapSp(s), TWO32 - c.frame % TWO32)
    ensures var m := SaveContext(p).mem;
            && InContext(m, t, s) && InTrapFrame(m, s) && InHandler(c, m, s)
            && (forall a: Word | !(t + CTXT <= a < t + SIZE) :: Load(m, a) == Load(p.mem, a))
  {
    ContextInside(t);
    CframeIsProper();
    CframeRows();
    StoresStayInside(p.mem, p.x, t + CTXT, CFRAME, 64);
    TrapFrameAbove(s);
    HandlerFrameInside(c, s);
    hide CALLER_SAVED, CFRAME, Addr, TrapSp, Stores, ContextRow;
  }

  /** An interrupt parks the current thread, and writes nowhere but in its context frame and on
      its own stack just below its stack pointer. */
  lemma InterruptParks(c: Code, p: Point, sepc: Word, scause: Word, junk: Regs)
    requires Compiled(c) && Placed(c, p.x[TP], p.x[SP])
    ensures var q, t := Away(c, p, sepc, scause, junk), p.x[TP];
            && Saved(c, q.mem, t, Taken(c, p, sepc, scause, junk))
            && (forall a: Word | !Touched(c, t, p.x[SP], a) :: Load(q.mem, a) == Load(p.mem, a))
            && q.x[A1] == Addr(Load(p.mem, Addr(t, NEXT)), CTXT)
  {
    var t, s := p.x[TP], Taken(c, p, sepc, scause, junk);
    var p1 := Enter(c, p, sepc, scause);
    EnterSaves(c, p, sepc, scause);
    assert InTrapFrame(p1.mem, s);
    var p2 := Prologue(c, p1);
    PrologueSaves(c, p1, s);
    var p3 := CallSwitch(c, p2, junk);
    CallSwitchKeeps(c, p2, junk);
    assert InHandler(c, p3.mem, s);
    SaveContextKeeps(c, p3, t, s);
    NoWrap(t, NEXT);
    if c.ret == c.trapExit {
      NoHandlerFrame(c, TrapSp(s));
    }
    hide CALLER_SAVED, CFRAME, Addr, TrapSp, Stores, Enter, Prologue, CallSwitch, SaveContext, InContext, InTrapFrame,
        InHandler, Proper;
  }

  lemma NoHandlerFrame(c: Code, a: Word)
    requires Compiled(c) && c.ret == c.trapExit
    ensures Addr(a, TWO32 - c.frame % TWO32) == a
    ensures forall r: Reg :: !InTable(c.saved, r)
  {
  }

  // ---- An interrupt that finds no timer pending ----

  /** What interrupt_handler may leave of the registers when it does not switch; in a version
      of its own with no frame it must leave ra and the callee-saved ones alone. */
  function HandlerRegs(c: Code, x: Regs, junk: Regs, framed: bool): Regs {
    seq(32, r requires 0 <= r < 32 =>
      if (IsCallerSaved(r) && (framed || r != RA)) || (framed && IsSaved(r) && InTable(c.saved, r)) then junk[r]
          else x[r])
  }

  /** From the interrupt through interrupt_handler, with or without the frame that the compiler
      gave it, to the sret: the registers and pc, and memory. */
  function Ignored(c: Code, p: Point, sepc: Word, scause: Word, junk: Regs, framed: bool): (User, Mem)
    requires Compiled(c)
  {
    var p1 := Enter(c, p, sepc, scause);
    if !framed || c.ret == c.trapExit then (TrapExit(p1.mem, HandlerRegs(c, p1.x, junk, false)), p1.mem)
    else
      var p2 := Prologue(c, p1);
      var x3 := HandlerRegs(c, p2.x, junk, true);
      var y := Loads(p2.mem, x3, x3[SP], c.saved);
      var x4 := Set(y, SP, Addr(y[SP], c.frame));
      (if x4[RA] == c.trapExit then TrapExit(p2.mem, x4) else Stuck, p2.mem)
  }

  lemma HandlerRegsKeep(c: Code, x: Regs, junk: Regs, framed: bool)
    ensures var y := HandlerRegs(c, x, junk, framed);
            && y[SP] == x[SP]
            && forall r: Reg | Global(r) :: y[r] == x[r] || (framed && IsSaved(r) && InTable(c.saved, r))
  {
  }

  /** Such an interrupt is not noticed: the thread continues with its pc and all its registers,
      and only the stack below its sp has been written. */
  lemma IgnoredReturns(c: Code, p: Point, sepc: Word, scause: Word, junk: Regs, framed: bool)
    requires Compiled(c) && Placed(c, p.x[TP], p.x[SP])
    ensures var (u, m) := Ignored(c, p, sepc, scause, junk, framed);
            && u == User(p.x, sepc)
            && (forall a: Word | !Touched(c, p.x[TP], p.x[SP], a) :: Load(m, a) == Load(p.mem, a))
  {
    var p1 := Enter(c, p, sepc, scause);
    EnterSaves(c, p, sepc, scause);
    if !framed || c.ret == c.trapExit {
      HandlerRegsKeep(c, p1.x, junk, false);
      hide Enter, Prologue, HandlerRegs, InTrapFrame, TrapExit, Addr, TrapSp, Loads;
      IgnoredUnframed(c, p, p1, sepc, junk);
    } else {
      hide Enter, Prologue, HandlerRegs, InTrapFrame, TrapExit, Addr, TrapSp, Loads, InHandler;
      IgnoredFramed(c, p, p1, sepc, junk);
    }
  }

  lemma IgnoredUnframed(c: Code, p: Point, p1: Point, sepc: Word, junk: Regs)
    requires InTrapFrame(p1.mem, Snap(p.x, sepc, p.x)) && p1.x[SP] == TrapSp(Snap(p.x, sepc, p.x))
    requires forall r: Reg | Global(r) :: p1.x[r] == p.x[r]
    ensures TrapExit(p1.mem, HandlerRegs(c, p1.x, junk, false)) == User(p.x, sepc)
  {
    HandlerRegsKeep(c, p1.x, junk, false);
    TrapExitCompletes(p1.mem, HandlerRegs(c, p1.x, junk, false), Snap(p.x, sepc, p.x));
  }

  lemma IgnoredFramed(c: Code, p: Point, p1: Point, sepc: Word, junk: Regs)
    requires Compiled(c) && c.ret != c.trapExit && Room(c) <= p.x[SP]
    requires InTrapFrame(p1.mem, Snap(p.x, sepc, p.x)) && TrapSp(Snap(p.x, sepc, p.x)) == p1.x[SP] == p.x[SP] - FRAME
    requires p1.x[RA] == c.trapExit && forall r: Reg | Global(r) :: p1.x[r] == p.x[r]
    ensures var p2 := Prologue(c, p1);
            var x3 := HandlerRegs(c, p2.x, junk, true);
            var y := Loads(p2.mem, x3, x3[SP], c.saved);
            && y[RA] == c.trapExit && TrapExit(p2.mem, Set(y, SP, Addr(y[SP], c.frame))) == User(p.x, sepc)
            && forall a: Word | !(p.x[SP] - Room(c) <= a < p.x[SP] - FRAME) :: Load(p2.mem, a) == Load(p1.mem, a)
  {
    var s := Snap(p.x, sepc, p.x);
    PrologueSaves(c, p1, s);
    var p2 := Prologue(c, p1);
    var x3, s' := HandlerRegs(c, p2.x, junk, true), s.(y := p2.x);
    HandlerRegsKeep(c, p2.x, junk, true);
    hide Prologue, HandlerRegs, InTrapFrame, InHandler, TrapExit, Addr, TrapSp, Loads;
    SameFrame(p2.mem, s, s');
    EpilogueRestores(c, p2.mem, x3, s');
    var y := Loads(p2.mem, x3, x3[SP], c.saved);
    TrapExitCompletes(p2.mem, Set(y, SP, Addr(y[SP], c.frame)), s');
  }

  lemma SameFrame(m: Mem, s: Snap, s': Snap)
    requires s'.x == s.x && s'.pc == s.pc
    ensures TrapSp(s') == TrapSp(s) && InTrapFrame(m, s') == InTrapFrame(m, s)
  {
  }
}
