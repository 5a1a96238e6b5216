/** The code behind the thread machine, written as it runs: the assembly of trap entry, trap
    exit and context_switch register by register, and thread_create word by word. */
module ThreadCode {
  import opened Common
  import opened Rv32
  import opened ContextSwitch
  import opened ThreadSystem
  import R = RunQueue
  import XosTrap

  class Cpu {
    var x: Regs
    var mem: Mem
    var pc: Word
    var sepc: Word
    var st: R.Status
    var heap: Word
    var nextStack: Word
    var nextThreadId: Word

    // ---- hw/src/trap-entry-single-stack.S and hw/src/context-switch.S ----

    /** trap_entry, as far as the call of interrupt_handler. */
    method TrapEntry(c: Code, scause: Word)
      modifies this`x, this`mem
      ensures Point(x, mem) == Enter(c, Point(old(x), old(mem)), sepc, scause)
    {
      hide Stores, XosTrap.CALLER_SAVED;
      x := Set(x, SP, Addr(x[SP], TWO32 - XosTrap.FRAME));
      mem := Save(mem, x, SP, XosTrap.CALLER_SAVED);
      x := Set(x, T0, sepc);
      mem := Put(mem, Addr(x[SP], XosTrap.PC_OFF), x[T0]);
      x := Set(x, T1, scause);
      x := Set(x, RA, c.trapExit);  // jal interrupt_handler
    }

    /** context_switch(from, to), with from in a0 and to in a1. */
    method Switch()
      modifies this`x, this`mem, this`pc
      ensures Point(x, mem) == LoadContext(SaveContext(Point(old(x), old(mem)))) && pc == x[RA]
    {
      mem := Save(mem, x, A0, CFRAME);
      CframeIsProper();
      CframeRows();
      hide CFRAME, Loads, Stores;
      x := Restore(mem, x, A1, CFRAME);
      pc := x[RA];  // ret
    }

    /** trap_exit. */
    method TrapExit()
      modifies this`x, this`pc, this`sepc, this`st
      ensures User(x, pc) == ContextSwitch.TrapExit(mem, old(x)) && st == R.Sret(old(st))
    {
      XosTrap.TablesAreProper();
      XosTrap.RowsCoverRegisters();
      hide XosTrap.CALLER_SAVED, Loads;
      x := Set(x, T0, Load(mem, Addr(x[SP], XosTrap.PC_OFF)));
      sepc := x[T0];
      x := Restore(mem, x, SP, XosTrap.CALLER_SAVED);
      x := Set(x, SP, Addr(x[SP], XosTrap.FRAME));
      pc, st := sepc, R.Sret(st);  // sret
    }

    // ---- thread_create ----

    method Memset(lo: Word, words: nat, v: Word)
      requires lo + 4 * words <= TWO32
      modifies this`mem
      ensures mem == Fill(old(mem), lo, words, v)
    {
      var i := 0;
      while i < words
        invariant 0 <= i <= words && mem == Fill(old(mem), lo, i, v)
      {
        mem := Put(mem, lo + 4 * i, v);
        i := i + 1;
      }
    }

    /** alloc, for any size; `sz` is rounded up to 32 bytes. */
    method Alloc(sz: nat) returns (p: Word)
      requires heap + RoundUp(sz) < TWO32
      modifies this`mem, this`heap
      ensures p == old(heap) && heap == p + RoundUp(sz) && mem == Fill(old(mem), p, RoundUp(sz) / 4, 0)
    {
      var size := RoundUp(sz);
      p := heap;
      Memset(p, size / 4, 0);
      heap := heap + size;
    }

    method AllocStack() returns (top: Word)
      requires STACK <= nextStack
      modifies this`mem, this`nextStack
      ensures top == old(nextStack) && nextStack == top - STACK &&
          mem == Fill(old(mem), nextStack, STACK_WORDS, STACK_FILL)
    {
      top := nextStack;
      nextStack := nextStack - STACK;
      Memset(nextStack, STACK_WORDS, STACK_FILL);
    }

    method ThreadCreate(c: Code, fn: Word, arg: Word) returns (t: Word)
      requires heap + ALLOC + STACK <= nextStack
      modifies this`mem, this`heap, this`nextStack, this`nextThreadId, this`st
      ensures t == old(heap) && heap == t + ALLOC && nextStack == old(nextStack) - STACK && st == old(st).(sie := true)
      ensures nextThreadId == (old(nextThreadId) + 1) % TWO32
      ensures mem == Created(c, old(mem), x[TP], t, old(nextThreadId), old(nextStack), fn, arg)
    {
      ThreadSize();
      hide Fill, RoundUp, LinkIn, NewStack;
      st := st.(sie := false);  // irq_disable
      var current, id := x[TP], nextThreadId;
      t := Alloc(SIZE);
      mem := Put(mem, t, MAGIC);
      mem := Put(mem, Addr(t, 4), id);
      nextThreadId := (nextThreadId + 1) % TWO32;
      LinkThread(current, t);
      StartContext(c, t, fn, arg);
      st := st.(sie := true);  // irq_enable
    }

    /** The machine is in state `s`. */
    ghost predicate Is(s: Sys)
      reads this
    {
      x == s.x && mem == s.mem && pc == s.pc && st == s.st && heap == s.heap && nextStack == s.nextStack
    }

    /** A call of thread_create, with its result in a0, is the step of the thread machine. */
    method CallThreadCreate(c: Code, fn: Word, arg: Word, ghost s: Sys) returns (t: Word)
      requires Is(s) && heap + ALLOC + STACK <= nextStack
      modifies this
      ensures Is(OnCreate(c, s, old(nextThreadId), fn, arg)) && t == x[A0]
      ensures nextThreadId == (old(nextThreadId) + 1) % TWO32
    {
      hide Created;
      t := ThreadCreate(c, fn, arg);
      x := Set(x, A0, t);  // ret
    }

    /** Its four link writes. */
    method LinkThread(current: Word, t: Word)
      modifies this`mem
      ensures mem == LinkIn(old(mem), current, t)
    {
      mem := Put(mem, Addr(t, NEXT), current);
      mem := Put(mem, Addr(t, PREV), Load(mem, Addr(current, PREV)));
      mem := Put(mem, Addr(Load(mem, Addr(t, PREV)), NEXT), t);
      mem := Put(mem, Addr(Load(mem, Addr(t, NEXT)), PREV), t);
    }

    lemma ThreadSize()
      ensures RoundUp(SIZE) == ALLOC && RoundUp(SIZE) / 4 == ALLOC_WORDS
    {
    }

    /** The rest of thread_create: the stack, the context and the trap frame. */
    method StartContext(c: Code, t: Word, fn: Word, arg: Word)
      requires STACK <= nextStack
      modifies this`mem, this`nextStack
      ensures nextStack == old(nextStack) - STACK && mem == NewStack(c, old(mem), t, old(nextStack), fn, arg)
    {
      hide Fill, NewFrame;
      mem := Put(mem, Addr(t, CTXT_TP), t);
      var top := AllocStack();
      mem := Put(mem, Addr(t, CTXT_SP), top);
      mem := Put(mem, Addr(t, CTXT_PC), c.trapExit);
      mem := Put(mem, Addr(t, CTXT_SP), Addr(top, TWO32 - XosTrap.FRAME));
      var frame := Load(mem, Addr(t, CTXT_SP));
      BelowTop(top);
      WriteFrame(c, frame, fn, arg);
    }

    lemma BelowTop(top: Word)
      requires STACK <= top
      ensures Addr(top, TWO32 - XosTrap.FRAME) == top - XosTrap.FRAME
    {
    }

    method WriteFrame(c: Code, frame: Word, fn: Word, arg: Word)
      requires frame + XosTrap.FRAME <= TWO32
      modifies this`mem
      ensures mem == NewFrame(c, old(mem), frame, fn, arg)
    {
      hide Fill;
      Memset(frame, TFRAME_WORDS, 0);
      mem := Put(mem, Addr(frame, 0x00), c.threadExit);
      mem := Put(mem, Addr(frame, 0x20), arg);
      mem := Put(mem, Addr(frame, XosTrap.PC_OFF), fn);
    }

    // ---- thread_exit ----

    /** As far as the return of context_switch into another thread's code; the registers with
        which it is called are the compiler's business, but for tp and the arguments. */
    method ThreadExit(junk: Regs) returns (switched: bool)
      modifies this`x, this`mem, this`pc, this`st
      ensures switched <==> Load(old(mem), Addr(old(x)[TP], NEXT)) != old(x)[TP]
      ensures st == old(st).(sie := false, spp := true, spie := true)
      ensures !switched ==> mem == old(mem) && x == old(x)
      ensures switched ==>
                var call := ExitCall(old(mem), old(x)[TP], junk);
                Point(x, mem) == LoadContext(SaveContext(Point(call, LinkOut(old(mem), old(x)[TP])))) && pc == x[RA]
    {
      hide LoadContext, SaveContext;
      st := st.(sie := false);               // irq_disable
      st := st.(spp := true, spie := true);  // csr_set
      var current := x[TP];
      var next, prev := Load(mem, Addr(current, NEXT)), Load(mem, Addr(current, PREV));
      if next == current {
        return false;
      }
      mem := Put(mem, Addr(next, PREV), prev);
      mem := Put(mem, Addr(prev, NEXT), next);
      mem := Put(mem, Addr(current, PREV), 0);
      mem := Put(mem, Addr(current, NEXT), 0);
      x := Set(Set(Set(junk, TP, current), A0, Addr(current, CTXT)), A1, Addr(next, CTXT));
      Switch();
      return true;
    }
  }
}
