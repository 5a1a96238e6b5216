/** xos/src/entry.S: every way from user mode into the kernel and back. */
module XosTrap {
  import opened Common
  import opened Rv32

  const FRAME := 128  // sizeof(eframe_t)
  const PC_OFF := 0x40
  const SP_OFF := 0x44
  const A0_OFF := 0x20
  const SYSCALL_COUNT := 3
  const XOS_ERR_BAD_SYSCALL: Word := 0x46

  // The rows of eframe_t, as the two blocks of stores and loads list them.
  const CALLER_SAVED: Table := [
    Row(RA, 0x00), Row(T0, 0x04), Row(T1, 0x08), Row(T2, 0x0C),
    Row(T3, 0x10), Row(T4, 0x14), Row(T5, 0x18), Row(T6, 0x1C),
    Row(A0, 0x20), Row(A1, 0x24), Row(A2, 0x28), Row(A3, 0x2C),
    Row(A4, 0x30), Row(A5, 0x34), Row(A6, 0x38), Row(A7, 0x3C)]

  const CALLEE_SAVED: Table := [
    Row(GP, 0x48), Row(TP, 0x4C), Row(S0, 0x50), Row(S1, 0x54), Row(S2, 0x58), Row(S3, 0x5C), Row(S4, 0x60),
    Row(S5, 0x64), Row(S6, 0x68), Row(S7, 0x6C), Row(S8, 0x70), Row(S9, 0x74), Row(S10, 0x78), Row(S11, 0x7C)]

  /** The hart as supervisor software sees it. */
  datatype Hart = Hart(x: Regs, mem: Mem, pc: Word, sepc: Word, sscratch: Word)

  // ---- trap_entry and trap_exit ----

  /** trap_entry, up to the look at scause. The hardware has put the user pc in sepc. */
  function Entry(h: Hart): Hart {
    var sp := Addr(h.sscratch, TWO32 - FRAME);
    var x1 := Set(h.x, SP, sp);
    var m1 := Stores(h.mem, x1, sp, CALLER_SAVED);
    var x2 := Set(Set(x1, T1, h.sepc), T2, h.x[SP]);
    var m2 := Put(Put(m1, Addr(sp, PC_OFF), x2[T1]), Addr(sp, SP_OFF), x2[T2]);
    var m3 := Stores(m2, x2, sp, CALLEE_SAVED);
    Hart(Set(x2, TP, Addr(sp, FRAME)), m3, h.pc, h.sepc, h.x[SP])
  }

  /** trap_exit and sret. */
  function Exit(h: Hart): Hart {
    TablesAreProper();
    var sp := h.x[SP];
    var x1 := Loads(h.mem, h.x, sp, CALLEE_SAVED);
    var pc := Load(h.mem, Addr(sp, PC_OFF));
    var x2 := Loads(h.mem, Set(x1, T1, pc), sp, CALLER_SAVED);
    Hart(Set(x2, SP, Load(h.mem, Addr(sp, SP_OFF))), h.mem, pc, pc, h.x[TP])
  }

  // ---- The C handlers ----

  /** What a call into C leaves behind. */
  datatype Effect = Effect(x: Regs, mem: Mem)

  predicate CalleeSaved(r: Reg) { r == SP || r == GP || r == TP || r == S0 || r == S1 || S2 <= r <= S11 }

  predicate InFrame(sp: Word, a: Word) { exists off | 0 <= off < FRAME && off % 4 == 0 :: a == Addr(sp, off) }

  /** The handler obeys the calling convention and leaves the saved frame alone. */
  ghost predicate RespectsAbi(h: Hart, e: Effect) {
    && (forall r: Reg | CalleeSaved(r) :: e.x[r] == h.x[r])
    && (forall a: Word | InFrame(h.x[SP], a) :: Load(e.mem, a) == Load(h.mem, a))
  }

  datatype Cause = Interrupt | Ecall

  /** The state in which the C handler is called, after a trap from user state `h`: the
      hardware moves the user pc to sepc; for a system call, t0 to t3 hold the dispatch. */
  function AtHandler(h: Hart, cause: Cause, scratch: Regs): Hart {
    var k := Entry(h.(sepc := h.pc));
    if cause == Interrupt then k.(x := k.x[RA := scratch[RA]])
    else k.(x := k.x[RA := scratch[RA]][T0 := scratch[T0]][T1 := scratch[T1]][T2 := scratch[T2]][T3 := scratch[T3]])
  }

  predicate Legal(h: Hart) { h.x[T0] < SYSCALL_COUNT }

  // ---- The dispatch of system calls ----

  datatype Handler = SysExit | SysXputc | SysThreadCreate

  /** The handlers in the order in which the template lists them. */
  const SYSCALL_TABLE: seq<Handler> := [SysExit, SysXputc, SysThreadCreate]

  /** syscall_table lies at `table`, a word for each handler; `code` is where these begin. */
  ghost predicate TableAt(m: Mem, table: Word, code: map<Handler, Word>) {
    forall i | 0 <= i < |SYSCALL_TABLE| ::
      SYSCALL_TABLE[i] in code && Load(m, Addr(table, 4 * i)) == code[SYSCALL_TABLE[i]]
  }

  /** syscall_entry as far as `jalr t3`: the registers with which the handler is called, and its address;
      None is illegal_syscall. */
  function Dispatch(x: Regs, m: Mem, table: Word, ra: Word): Option<(Regs, Word)> {
    if x[T0] >= SYSCALL_COUNT then None
    else
      var x1 := Set(Set(Set(x, T1, SYSCALL_COUNT), T0, x[T0] * 4 % TWO32), T1, table);
      var x2 := Set(x1, T2, Addr(x1[T1], x1[T0]));
      var x3 := Set(x2, T3, Load(m, x2[T2]));
      Some((Set(x3, RA, ra), x3[T3]))
  }

  /** From the trap to the first instruction back in user mode. */
  function Trap(h: Hart, cause: Cause, scratch: Regs, e: Effect): Hart {
    var k := AtHandler(h, cause, scratch);
    var sp := k.x[SP];
    if cause == Interrupt then Exit(k.(x := e.x, mem := e.mem))
    else if !(Entry(h.(sepc := h.pc)).x[T0] < SYSCALL_COUNT) then
      var k := Entry(h.(sepc := h.pc));
      Exit(k.(mem := Put(k.mem, Addr(sp, A0_OFF), XOS_ERR_BAD_SYSCALL)))
    else
      var m := Put(e.mem, Addr(sp, A0_OFF), e.x[A0]);
      Exit(k.(x := e.x, mem := Put(m, Addr(sp, PC_OFF), Addr(Load(m, Addr(sp, PC_OFF)), 4))))
  }

  // ---- What they keep ----

  predicate IsCallerSaved(r: Reg) { r == RA || T0 <= r <= T2 || T3 <= r <= T6 || A0 <= r <= A7 }

  /** The row of a register in its block. */
  function RowOf(r: Reg): nat
    requires r != ZERO && r != SP
  {
    if r == RA then 0 else if T0 <= r <= T2 then r - T0 + 1 else if T3 <= r <= T6 then r - T3 + 4
    else if A0 <= r <= A7 then r - A0 + 8
    else if r <= TP then r - GP else if r <= S1 then r - S0 + 2 else r - S2 + 4
  }

  /** Every register but zero and sp has exactly one row, and the words of the rows follow
      each other with room for pc and sp between the blocks. */
  lemma RowsCoverRegisters()
    ensures |CALLER_SAVED| == 16 && |CALLEE_SAVED| == 14
    ensures forall i | 0 <= i < |CALLER_SAVED| ::
              CALLER_SAVED[i].off == 4 * i && IsCallerSaved(CALLER_SAVED[i].reg) && RowOf(CALLER_SAVED[i].reg) == i
    ensures forall i | 0 <= i < |CALLEE_SAVED| ::
              var r := CALLEE_SAVED[i].reg;
              CALLEE_SAVED[i].off == 0x48 + 4 * i && r != ZERO && r != SP && !IsCallerSaved(r) && RowOf(r) == i
    ensures forall r: Reg | IsCallerSaved(r) :: RowOf(r) < |CALLER_SAVED| && CALLER_SAVED[RowOf(r)].reg == r
    ensures forall r: Reg | !IsCallerSaved(r) && r != ZERO && r != SP ::
              RowOf(r) < |CALLEE_SAVED| && CALLEE_SAVED[RowOf(r)].reg == r
  {
  }

  lemma TablesAreProper()
    ensures Proper(CALLER_SAVED) && Proper(CALLEE_SAVED)
  {
    RowsCoverRegisters();
    hide CALLER_SAVED, CALLEE_SAVED;
  }

  /** A frame holds the registers `x` and the pc. */
  ghost predicate Holds(m: Mem, sp: Word, x: Regs, pc: Word) {
    && (forall i | 0 <= i < |CALLER_SAVED| :: Load(m, Addr(sp, CALLER_SAVED[i].off)) == x[CALLER_SAVED[i].reg])
    && (forall i | 0 <= i < |CALLEE_SAVED| :: Load(m, Addr(sp, CALLEE_SAVED[i].off)) == x[CALLEE_SAVED[i].reg])
    && Load(m, Addr(sp, PC_OFF)) == pc
    && Load(m, Addr(sp, SP_OFF)) == x[SP]
  }

  lemma DistinctOffsets(sp: Word)
    ensures forall i | 0 <= i < |CALLER_SAVED| ::
              && CALLER_SAVED[i].off < 0x40
              && Addr(sp, CALLER_SAVED[i].off) != Addr(sp, PC_OFF) && Addr(sp, CALLER_SAVED[i].off) != Addr(sp, SP_OFF)
    ensures forall i | 0 <= i < |CALLEE_SAVED| ::
              && CALLEE_SAVED[i].off >= 0x48
              && Addr(sp, CALLEE_SAVED[i].off) != Addr(sp, PC_OFF) && Addr(sp, CALLEE_SAVED[i].off) != Addr(sp, SP_OFF)
    ensures forall i, j | 0 <= i < |CALLER_SAVED| && 0 <= j < |CALLEE_SAVED| ::
              Addr(sp, CALLER_SAVED[i].off) != Addr(sp, CALLEE_SAVED[j].off)
    ensures Addr(sp, PC_OFF) != Addr(sp, SP_OFF)
  {
  }

  lemma StackPointer(ktop: Word)
    ensures Addr(Addr(ktop, TWO32 - FRAME), FRAME) == ktop
    ensures Addr(Addr(ktop, FRAME), TWO32 - FRAME) == ktop
  {
  }

  /** The first two groups of stores: caller-saved registers, then pc and sp. */
  function UpperStores(m: Mem, x1: Regs, sp: Word, pc: Word, userSp: Word): Mem {
    Put(Put(Stores(m, x1, sp, CALLER_SAVED), Addr(sp, PC_OFF), pc), Addr(sp, SP_OFF), userSp)
  }

  lemma UpperStoresAt(m: Mem, x1: Regs, sp: Word, pc: Word, userSp: Word)
    ensures var m2 := UpperStores(m, x1, sp, pc, userSp);
            && (forall i | 0 <= i < |CALLER_SAVED| ::
                Load(m2, Addr(sp, CALLER_SAVED[i].off)) == x1[CALLER_SAVED[i].reg])
            && Load(m2, Addr(sp, PC_OFF)) == pc && Load(m2, Addr(sp, SP_OFF)) == userSp
  {
    TablesAreProper();
    DistinctOffsets(sp);
    hide CALLER_SAVED, CALLEE_SAVED, Addr, Stores;
    StoresAt(m, x1, sp, CALLER_SAVED);
  }

  lemma LowerStoresAt(m: Mem, x2: Regs, sp: Word)
    ensures var m3 := Stores(m, x2, sp, CALLEE_SAVED);
            && (forall i | 0 <= i < |CALLEE_SAVED| ::
                Load(m3, Addr(sp, CALLEE_SAVED[i].off)) == x2[CALLEE_SAVED[i].reg])
            && (forall i | 0 <= i < |CALLER_SAVED| ::
                Load(m3, Addr(sp, CALLER_SAVED[i].off)) == Load(m, Addr(sp, CALLER_SAVED[i].off)))
            && Load(m3, Addr(sp, PC_OFF)) == Load(m, Addr(sp, PC_OFF)) &&
                Load(m3, Addr(sp, SP_OFF)) == Load(m, Addr(sp, SP_OFF))
  {
    TablesAreProper();
    DistinctOffsets(sp);
    hide CALLER_SAVED, CALLEE_SAVED, Addr, Stores;
    StoresAt(m, x2, sp, CALLEE_SAVED);
  }

  /** The three groups of stores fill a frame without disturbing each other. */
  lemma StoresFillFrame(m: Mem, x1: Regs, x2: Regs, sp: Word, x: Regs, pc: Word)
    requires forall r: Reg | IsCallerSaved(r) :: x1[r] == x[r]
    requires forall r: Reg | !IsCallerSaved(r) && r != SP :: x2[r] == x[r]
    ensures Holds(Stores(UpperStores(m, x1, sp, pc, x[SP]), x2, sp, CALLEE_SAVED), sp, x, pc)
  {
    UpperStoresAt(m, x1, sp, pc, x[SP]);
    LowerStoresAt(UpperStores(m, x1, sp, pc, x[SP]), x2, sp);
    RowsCoverRegisters();
    hide CALLER_SAVED, CALLEE_SAVED, Addr, UpperStores, Stores, RowOf;
  }

  /** On entry the frame below the kernel stack top gets every user register, the user sp and
      the user pc; the argument registers still hold what user code put there. */
  lemma EntrySaves(h: Hart)
    ensures var k, sp := Entry(h), Addr(h.sscratch, TWO32 - FRAME);
            && k.x[SP] == sp && k.x[TP] == h.sscratch && k.sscratch == h.x[SP]
            && Holds(k.mem, sp, h.x, h.sepc)
            && (forall r: Reg | r != SP && r != TP && r != T1 && r != T2 :: k.x[r] == h.x[r])
  {
    var sp := Addr(h.sscratch, TWO32 - FRAME);
    var x1 := Set(h.x, SP, sp);
    var x2 := Set(Set(x1, T1, h.sepc), T2, h.x[SP]);
    StackPointer(h.sscratch);
    StoresFillFrame(h.mem, x1, x2, sp, h.x, h.sepc);
  }

  /** On exit every register comes from the frame, the pc too, and sscratch gets tp. */
  lemma ExitRestores(h: Hart, x: Regs, pc: Word)
    requires Holds(h.mem, h.x[SP], x, pc)
    ensures Exit(h) == Hart(x, h.mem, pc, pc, h.x[TP])
  {
    var sp := h.x[SP];
    TablesAreProper();
    RowsCoverRegisters();
    hide CALLER_SAVED, CALLEE_SAVED, Addr;
    LoadsAt(h.mem, h.x, sp, CALLEE_SAVED);
    var x1 := Loads(h.mem, h.x, sp, CALLEE_SAVED);
    LoadsAt(h.mem, Set(x1, T1, pc), sp, CALLER_SAVED);
    var out := Exit(h).x;
    forall r: Reg
      ensures out[r] == x[r]
    {
      if r != ZERO && r != SP {
        if IsCallerSaved(r) {
          assert CALLER_SAVED[RowOf(r)].reg == r;
        } else {
          assert CALLEE_SAVED[RowOf(r)].reg == r;
        }
      }
    }
    assert out == x;
  }

  lemma FrameWord(sp: Word, off: nat)
    requires off < FRAME && off % 4 == 0
    ensures InFrame(sp, Addr(sp, off))
  {
  }

  lemma HoldsAfterHandler(m: Mem, m': Mem, sp: Word, x: Regs, pc: Word)
    requires Holds(m, sp, x, pc)
    requires forall a: Word | InFrame(sp, a) :: Load(m', a) == Load(m, a)
    ensures Holds(m', sp, x, pc)
  {
    hide CALLER_SAVED, CALLEE_SAVED, Addr, InFrame, RowOf;
    RowsCoverRegisters();
    FrameWord(sp, PC_OFF);
    FrameWord(sp, SP_OFF);
    forall i | 0 <= i < |CALLER_SAVED|
      ensures InFrame(sp, Addr(sp, CALLER_SAVED[i].off))
    {
      FrameWord(sp, CALLER_SAVED[i].off);
    }
    forall i | 0 <= i < |CALLEE_SAVED|
      ensures InFrame(sp, Addr(sp, CALLEE_SAVED[i].off))
    {
      FrameWord(sp, CALLEE_SAVED[i].off);
    }
  }

  /** The slot of a0 is that of no other register, nor of sp or pc. */
  lemma A0Slot(sp: Word)
    ensures forall i | 0 <= i < |CALLER_SAVED| ::
              if CALLER_SAVED[i].reg == A0 then CALLER_SAVED[i].off == A0_OFF
              else Addr(sp, CALLER_SAVED[i].off) != Addr(sp, A0_OFF)
    ensures forall i | 0 <= i < |CALLEE_SAVED| ::
              CALLEE_SAVED[i].reg != A0 && Addr(sp, CALLEE_SAVED[i].off) != Addr(sp, A0_OFF)
    ensures Addr(sp, A0_OFF) != Addr(sp, PC_OFF) && Addr(sp, A0_OFF) != Addr(sp, SP_OFF)
  {
    RowsCoverRegisters();
    DistinctOffsets(sp);
    assert CALLER_SAVED[8].off == A0_OFF && CALLER_SAVED[8].reg == A0;
    forall i | 0 <= i < |CALLER_SAVED| && i != 8
      ensures CALLER_SAVED[i].reg != A0 && Addr(sp, CALLER_SAVED[i].off) != Addr(sp, A0_OFF)
    {
      assert RowOf(A0) == 8;
      AddrInjective(sp, CALLER_SAVED[i].off, A0_OFF);
    }
  }

  lemma UpdateA0(m: Mem, sp: Word, x: Regs, pc: Word, a0: Word)
    requires Holds(m, sp, x, pc)
    ensures Holds(Put(m, Addr(sp, A0_OFF), a0), sp, x[A0 := a0], pc)
  {
    hide CALLER_SAVED, CALLEE_SAVED, Addr, RowOf;
    A0Slot(sp);
  }

  lemma UpdatePc(m: Mem, sp: Word, x: Regs, pc: Word, pc': Word)
    requires Holds(m, sp, x, pc)
    ensures Holds(Put(m, Addr(sp, PC_OFF), pc'), sp, x, pc')
  {
    hide CALLER_SAVED, CALLEE_SAVED, Addr, RowOf;
    DistinctOffsets(sp);
  }

  /** Writing the result and the advanced pc into a frame. */
  lemma UpdateFrame(m: Mem, sp: Word, x: Regs, pc: Word, a0: Word, pc': Word)
    requires Holds(m, sp, x, pc)
    ensures Holds(Put(m, Addr(sp, A0_OFF), a0), sp, x[A0 := a0], pc)
    ensures Holds(Put(Put(m, Addr(sp, A0_OFF), a0), Addr(sp, PC_OFF), pc'), sp, x[A0 := a0], pc')
  {
    hide Holds;
    UpdateA0(m, sp, x, pc, a0);
    UpdatePc(Put(m, Addr(sp, A0_OFF), a0), sp, x[A0 := a0], pc, pc');
  }

  /** What a trap does to user code, given handlers that obey the ABI: an interrupt nothing; a
      legal system call only a0 (the handler's result) and pc (past the ecall); an illegal one
      only a0. Each leaves the kernel stack top in sscratch for the next trap. */
  lemma TrapKeepsUserState(h: Hart, cause: Cause, scratch: Regs, e: Effect)
    requires RespectsAbi(AtHandler(h, cause, scratch), e)
    ensures var h' := Trap(h, cause, scratch, e);
            && h'.sscratch == h.sscratch
            && (cause == Interrupt ==> h'.x == h.x && h'.pc == h.pc)
            && (cause == Ecall && Legal(h) ==> h'.x == h.x[A0 := e.x[A0]] && h'.pc == Addr(h.pc, 4))
            && (cause == Ecall && !Legal(h) ==> h'.x == h.x[A0 := 0x46] && h'.pc == h.pc)
  {
    var h0 := h.(sepc := h.pc);
    EntrySaves(h0);
    var k, k0 := AtHandler(h, cause, scratch), Entry(h0);
    var sp := k.x[SP];
    HoldsAfterHandler(k.mem, e.mem, sp, h.x, h.pc);
    hide Holds, Entry, Exit, InFrame;
    if cause == Interrupt {
      ExitRestores(k.(x := e.x, mem := e.mem), h.x, h.pc);
    } else if Legal(h) {
      FramePc(e.mem, sp, h.x, h.pc);
      UpdateFrame(e.mem, sp, h.x, h.pc, e.x[A0], Addr(h.pc, 4));
      FramePc(Put(e.mem, Addr(sp, A0_OFF), e.x[A0]), sp, h.x[A0 := e.x[A0]], h.pc);
      ExitRestores(k.(x := e.x, mem := Put(Put(e.mem, Addr(sp, A0_OFF), e.x[A0]), Addr(sp, PC_OFF), Addr(h.pc, 4))),
                   h.x[A0 := e.x[A0]], Addr(h.pc, 4));
    } else {
      UpdateFrame(k0.mem, sp, h.x, h.pc, XOS_ERR_BAD_SYSCALL, h.pc);
      ExitRestores(k0.(mem := Put(k0.mem, Addr(sp, A0_OFF), XOS_ERR_BAD_SYSCALL)), h.x[A0 := XOS_ERR_BAD_SYSCALL],
        h.pc);
    }
  }

  lemma FramePc(m: Mem, sp: Word, x: Regs, pc: Word)
    requires Holds(m, sp, x, pc)
    ensures Load(m, Addr(sp, PC_OFF)) == pc
  {
  }

  /** The handler of a system call finds the user's arguments in a0 to a7, the saved frame at
      sp and the kernel stack top in tp. */
  lemma HandlerSees(h: Hart, cause: Cause, scratch: Regs)
    ensures var k := AtHandler(h, cause, scratch);
            && k.x[SP] == Addr(h.sscratch, TWO32 - FRAME) && k.x[TP] == h.sscratch
            && Holds(k.mem, k.x[SP], h.x, h.pc)
            && (forall r: Reg | A0 <= r <= A7 :: k.x[r] == h.x[r])
  {
    EntrySaves(h.(sepc := h.pc));
  }

  /** Exactly the numbers 0, 1 and 2 are legal, and they reach sys_exit, sys_xputc and sys_thread_create, with
      the registers, but for those of the dispatch, of the moment after trap entry. */
  lemma SyscallReaches(h: Hart, table: Word, ra: Word, code: map<Handler, Word>)
    requires TableAt(Entry(h.(sepc := h.pc)).mem, table, code)
    ensures var k := Entry(h.(sepc := h.pc));
            var call := Dispatch(k.x, k.mem, table, ra);
            && (Legal(h) <==> h.x[T0] == 0 || h.x[T0] == 1 || h.x[T0] == 2)
            && (call.Some? <==> Legal(h))
            && (call.Some? ==>
                  && AtHandler(h, Ecall, call.value.0).x == call.value.0
                  && var handler :=
                       if h.x[T0] == 0 then SysExit else if h.x[T0] == 1 then SysXputc else SysThreadCreate;
                     handler in code && call.value.1 == code[handler])
  {
    var k := Entry(h.(sepc := h.pc));
    EntryKeepsNumber(h);
    hide Entry;
    assert SYSCALL_TABLE[0] == SysExit && SYSCALL_TABLE[1] == SysXputc && SYSCALL_TABLE[2] == SysThreadCreate;
    if Legal(h) {
      assert Load(k.mem, Addr(table, 4 * h.x[T0])) == code[SYSCALL_TABLE[h.x[T0]]];
    }
  }

  lemma EntryKeepsNumber(h: Hart)
    ensures Entry(h.(sepc := h.pc)).x[T0] == h.x[T0]
  {
  }

  // ---- Whole runs ----

  /** What happens while the hart is in user mode. User code changes registers, pc and memory
      as it likes, but not sscratch. */
  datatype Event =
    | UserRuns(x: Regs, mem: Mem, pc: Word)
    | Traps(cause: Cause, scratch: Regs, e: Effect)

  function After(h: Hart, ev: Event): Hart {
    match ev
    case UserRuns(x, mem, pc) => h.(x := x, mem := mem, pc := pc)
    case Traps(cause, scratch, e) => Trap(h, cause, scratch, e)
  }

  function Run(h: Hart, events: seq<Event>): Hart
    decreases events
  {
    if events == [] then h else Run(After(h, events[0]), events[1..])
  }

  ghost predicate AllRespectAbi(h: Hart, events: seq<Event>)
    decreases events
  {
    events != [] ==>
      && (events[0].Traps? ==> RespectsAbi(AtHandler(h, events[0].cause, events[0].scratch), events[0].e))
      && AllRespectAbi(After(h, events[0]), events[1..])
  }

  /** user_mode_entry(ef). */
  function UserModeEntry(h: Hart, ef: Word): Hart {
    Exit(h.(x := h.x[SP := ef][TP := Addr(ef, FRAME)]))
  }

  /** From user_mode_entry on, whenever user code runs, sscratch is the kernel stack top, so
      every trap saves into the same frame: the one user mode was entered from. */
  lemma {:induction false} EveryTrapUsesTheSameFrame(h: Hart, ef: Word, events: seq<Event>)
    requires AllRespectAbi(UserModeEntry(h, ef), events)
    ensures var u := Run(UserModeEntry(h, ef), events);
            u.sscratch == Addr(ef, 128) && Entry(u).x[SP] == ef
  {
    var u := UserModeEntry(h, ef);
    assert u.sscratch == Addr(ef, FRAME);
    RunKeepsStackTop(u, events);
    StackPointer(ef);
    EntrySaves(Run(u, events));
  }

  lemma {:induction false} RunKeepsStackTop(h: Hart, events: seq<Event>)
    requires AllRespectAbi(h, events)
    ensures Run(h, events).sscratch == h.sscratch
    decreases events
  {
    if events != [] {
      if events[0].Traps? {
        TrapKeepsUserState(h, events[0].cause, events[0].scratch, events[0].e);
      }
      RunKeepsStackTop(After(h, events[0]), events[1..]);
    }
  }

  /** An ecall with an illegal number is executed again and again: pc never moves, and after
      the first time nothing changes at all. */
  lemma {:induction false} IllegalSyscallNeverReturns(h: Hart, events: seq<Event>)
    requires !Legal(h) && AllRespectAbi(h, events)
    requires forall i | 0 <= i < |events| :: events[i].Traps? && events[i].cause == Ecall
    ensures var u := Run(h, events);
            u.pc == h.pc && u.x == if events == [] then h.x else h.x[A0 := 0x46]
    decreases events
  {
    if events != [] {
      var ev := events[0];
      TrapKeepsUserState(h, ev.cause, ev.scratch, ev.e);
      IllegalSyscallNeverReturns(After(h, ev), events[1..]);
    }
  }

  // ---- The assembly, one register at a time ----

  class Cpu {
    var x: Regs
    var mem: Mem
    var pc: Word
    var sepc: Word
    var sscratch: Word

    function Value(): Hart
      reads this
    {
      Hart(x, mem, pc, sepc, sscratch)
    }

    method TrapEntry()
      modifies this
      ensures Value() == Entry(old(Value()))
    {
      hide Stores, CALLER_SAVED, CALLEE_SAVED;
      ghost var h := Value();
      ghost var sp := Addr(h.sscratch, TWO32 - FRAME);
      x, sscratch := Set(x, SP, sscratch), x[SP];    // csrrw sp, sscratch, sp
      assert x[SP] == h.sscratch;
      x := Set(x, SP, Addr(x[SP], TWO32 - FRAME));  // addi sp, sp, -(32 * 4)
      assert x == Set(h.x, SP, sp);
      mem := Save(mem, x, SP, CALLER_SAVED);
      assert mem == Stores(h.mem, Set(h.x, SP, sp), sp, CALLER_SAVED);
      x := Set(x, T1, sepc);
      x := Set(x, T2, sscratch);
      assert x == Set(Set(Set(h.x, SP, sp), T1, h.sepc), T2, h.x[SP]);
      mem := Put(mem, Addr(x[SP], PC_OFF), x[T1]);
      mem := Put(mem, Addr(x[SP], SP_OFF), x[T2]);
      mem := Save(mem, x, SP, CALLEE_SAVED);
      x := Set(x, TP, Addr(x[SP], FRAME));
    }

    /** syscall_entry up to the call of the handler; `ra` is the address behind the jalr. */
    method SyscallEntry(table: Word, ra: Word) returns (legal: bool)
      modifies this`x, this`pc
      ensures var call := Dispatch(old(x), mem, table, ra);
              legal == call.Some? && (legal ==> x == call.value.0 && pc == call.value.1)
    {
      ghost var was := x;
      x := Set(x, T1, SYSCALL_COUNT);
      if x[T0] >= x[T1] {
        return false;
      }
      x := Set(x, T0, x[T0] * 4 % TWO32);      // slli
      x := Set(x, T1, table);                  // la
      x := Set(x, T2, Addr(x[T1], x[T0]));     // add
      x := Set(x, T3, Load(mem, x[T2]));       // lw
      ghost var numbered := Set(Set(was, T1, SYSCALL_COUNT), T0, was[T0] * 4 % TWO32);
      assert x == Set(Set(Set(numbered, T1, table), T2, x[T2]), T3, x[T3]);
      x, pc := Set(x, RA, ra), x[T3];          // jalr
      return true;
    }

    method TrapExit()
      modifies this
      ensures Value() == Exit(old(Value()))
    {
      ghost var h := Value();
      RowsCoverRegisters();
      hide Loads;
      sscratch := x[TP];
      x := Restore(mem, x, SP, CALLEE_SAVED);
      assert x[SP] == h.x[SP];
      x := Set(x, T1, Load(mem, Addr(x[SP], PC_OFF)));
      sepc := x[T1];
      x := Restore(mem, x, SP, CALLER_SAVED);
      assert x[SP] == h.x[SP];
      x := Set(x, SP, Load(mem, Addr(x[SP], SP_OFF)));
      pc := sepc;  // sret
    }
  }
}
