/** xos/src/kernel.c from `start` to user mode, and which frames then lie behind what. */
module Boot {
  import opened Common
  import opened Sv32
  import opened Vmm
  import opened Kernel
  import opened UserSpace
  import opened UserEntry
  import Rv = Rv32
  import Trap = XosTrap

  /** The frame of the page directory. */
  function Root(l: Layout): int { l.memoryTop - 0x8_0000 - 3 }

  /** Where the allocator stands when the kernel is mapped. */
  function Top(l: Layout): int
    requires l.text <= l.imageEnd
  {
    Root(l) - l.Tables()
  }

  /** The state in which user mode is entered. */
  ghost predicate Booted(m: Memory, l: Layout)
    reads m, m.ram
  {
    && l.Valid() && 8 <= Top(l) && Root(l) < FRAMES
    && Running(m, Root(l), l, Top(l))
    && m.paTop == (Top(l) - 8) * 4096 && m.paStart == (Root(l) + 1) * 4096 &&
        m.paBottom == (l.imageEnd - 0x8_0000) * 4096
    && {Top(l) - 1, Top(l) - 3, Top(l) - 4, Top(l) - 5, Top(l) - 6, Top(l) - 8} <= m.handedOut
  }

  predicate InFramebuffer(f: int) { FRAMEBUFFER_FRAME <= f < FRAMEBUFFER_FRAME + FRAMEBUFFER_FRAMES }

  predicate InImage(l: Layout, f: int) { l.text - 0x8_0000 <= f < l.imageEnd - 0x8_0000 }

  predicate FramebufferPage(v: nat) { FRAMEBUFFER_PAGE <= v < FRAMEBUFFER_PAGE + FRAMEBUFFER_FRAMES }

  ghost predicate IsTable(m: Memory, l: Layout, f: int)
    reads m, m.ram
    requires |m.Ram()| == WORDS && 0 <= Root(l) < FRAMES
  {
    exists i: nat | i < 1024 :: HasTable(m.Ram(), Root(l), i) && TableOf(m.Ram(), Root(l), i) == f
  }

  /** The frames that serve the kernel: directory, page tables, kernel stack. */
  ghost predicate IsKernelFrame(m: Memory, l: Layout, f: int)
    reads m, m.ram
    requires |m.Ram()| == WORDS && 0 <= Root(l) < FRAMES && l.text <= l.imageEnd
  {
    f == Root(l) || f == Top(l) - 8 || IsTable(m, l, f)
  }

  /** The frame behind a page. */
  ghost function FrameOf(m: Memory, l: Layout, v: nat): int
    reads m, m.ram
    requires |m.Ram()| == WORDS && 0 <= Root(l) < FRAMES && v < PAGES
  {
    var w := Walk(m.Ram(), Root(l), v);
    if w.Some? then w.value.ppn else -1
  }

  /** Everything the allocator gave out lies in the 204 frames below the boot directory; so near
      to a megapage boundary there is no frame buffer, whatever the layout. */
  lemma AllocatorMissesFramebuffer(l: Layout, f: int)
    requires l.Valid() && Top(l) - 8 <= f <= Root(l)
    ensures !InFramebuffer(f)
  {
    var mega, k := l.MegaStart(), l.memoryTop / 1024;
    assert l.memoryTop == 1024 * k;
    assert mega / 1024 <= 0xF_0000 / 1024 && l.text / 1024 >= 0xC_0000 / 1024;
    assert l.Tables() <= 192;
    if k <= 0xC_0C00 / 1024 {
      assert f < FRAMEBUFFER_FRAME;
    } else {
      assert l.memoryTop >= 0xC_0C00 + 1024;
    }
  }

  lemma KernelFrameRange(m: Memory, l: Layout, f: int)
    requires Booted(m, l) && IsKernelFrame(m, l, f)
    ensures Top(l) - 8 <= f <= Root(l)
  {
    if IsTable(m, l, f) {
      var i: nat :| i < 1024 && HasTable(m.Ram(), Root(l), i) && TableOf(m.Ram(), Root(l), i) == f;
      assert GoodDirEntry(m.Ram(), Root(l), m.paTop / 4096, i);
      assert TableOf(m.Ram(), Root(l), i) < m.paStart / 4096;
    }
  }

  lemma ProgramPageFrame(m: Memory, l: Layout, v: nat)
    requires Booted(m, l) && AllocatedPage(v)
    ensures v < PAGES && FrameOf(m, l, v) in {Top(l) - 1, Top(l) - 3, Top(l) - 4, Top(l) - 5, Top(l) - 6}
  {
    assert UserMap(Top(l), v).Some?;
  }

  lemma FramebufferFrame(m: Memory, l: Layout, v: nat)
    requires Booted(m, l) && FramebufferPage(v)
    ensures v < PAGES && FrameOf(m, l, v) == FRAMEBUFFER_FRAME + (v - FRAMEBUFFER_PAGE)
  {
    assert UserMap(Top(l), v).Some?;
  }

  predicate UserPage(v: nat) { AllocatedPage(v) || FramebufferPage(v) }

  /** No two user pages share a frame, and no user page, program or frame buffer, has the
      directory, a page table or the kernel stack behind it. */
  lemma UserFramesAreSeparate(m: Memory, l: Layout, v: nat, v': nat, f: int)
    requires Booted(m, l) && UserPage(v) && UserPage(v') && v != v' && IsKernelFrame(m, l, f)
    ensures v < PAGES && v' < PAGES && 0 <= FrameOf(m, l, v) != FrameOf(m, l, v')
    ensures FrameOf(m, l, v) != f
  {
    PageFrame(m, l, v);
    PageFrame(m, l, v');
    KernelFrameRange(m, l, f);
    hide FrameOf;
    if FramebufferPage(v) {
      AllocatorMissesFramebuffer(l, f);
    } else {
      NotAKernelFrame(m, l, v, f);
    }
    if FramebufferPage(v) != FramebufferPage(v') {
      AllocatorMissesFramebuffer(l, if FramebufferPage(v) then FrameOf(m, l, v') else FrameOf(m, l, v));
    } else if AllocatedPage(v) {
      ProgramFramesDiffer(m, l, v, v');
    }
  }

  lemma PageFrame(m: Memory, l: Layout, v: nat)
    requires Booted(m, l) && UserPage(v)
    ensures v < PAGES && 0 <= FrameOf(m, l, v)
    ensures FramebufferPage(v) ==> FrameOf(m, l, v) == FRAMEBUFFER_FRAME + (v - FRAMEBUFFER_PAGE)
    ensures AllocatedPage(v) ==> Top(l) - 6 <= FrameOf(m, l, v) < Top(l)
  {
    if FramebufferPage(v) {
      FramebufferFrame(m, l, v);
    } else {
      ProgramPageFrame(m, l, v);
    }
  }

  lemma ProgramFramesDiffer(m: Memory, l: Layout, v: nat, v': nat)
    requires Booted(m, l) && AllocatedPage(v) && AllocatedPage(v') && v != v'
    ensures v < PAGES && v' < PAGES && FrameOf(m, l, v) != FrameOf(m, l, v')
  {
    assert UserMap(Top(l), v).Some? && UserMap(Top(l), v').Some?;
  }

  lemma NotAKernelFrame(m: Memory, l: Layout, v: nat, f: int)
    requires Booted(m, l) && AllocatedPage(v) && IsKernelFrame(m, l, f)
    ensures v < PAGES && FrameOf(m, l, v) != f
  {
    ProgramPageFrame(m, l, v);
    assert TablesAvoid(m.Ram(), Root(l), m.handedOut);
  }

  /** No program page has a frame of the kernel image behind it. */
  lemma ProgramMissesImage(m: Memory, l: Layout, v: nat)
    requires Booted(m, l) && AllocatedPage(v)
    ensures v < PAGES && !InImage(l, FrameOf(m, l, v)) && !InFramebuffer(FrameOf(m, l, v))
  {
    PageFrame(m, l, v);
    AllocatorMissesFramebuffer(l, FrameOf(m, l, v));
    hide FrameOf;
  }

  /** User mode can write to the kernel image through the frame buffer. */
  ghost predicate FramebufferOverImage(m: Memory, l: Layout)
    reads m, m.ram
    requires |m.Ram()| == WORDS && 0 <= Root(l) < FRAMES
  {
    exists v: nat, w: nat | v < PAGES && w < PAGES && FramebufferPage(v) && l.text <= w < l.imageEnd ::
      FrameOf(m, l, v) == FrameOf(m, l, w)
  }

  /** That is so exactly for an image that reaches over the frame buffer's place in RAM. */
  lemma FramebufferOverImageIff(m: Memory, l: Layout)
    requires Booted(m, l)
    ensures FramebufferOverImage(m, l) <==>
            l.text < l.imageEnd && l.text < 0xC_0C00 + FRAMEBUFFER_FRAMES && 0xC_0C00 < l.imageEnd
  {
    forall w: nat | l.text <= w < l.imageEnd
      ensures w < PAGES && FrameOf(m, l, w) == w - 0x8_0000
    {
      assert UserMap(Top(l), w) == None;
    }
    forall v: nat | FramebufferPage(v)
      ensures v < PAGES && FrameOf(m, l, v) == FRAMEBUFFER_FRAME + (v - FRAMEBUFFER_PAGE)
    {
      FramebufferFrame(m, l, v);
    }
    hide FrameOf;
    if l.text < l.imageEnd && l.text < 0xC_0C00 + FRAMEBUFFER_FRAMES && 0xC_0C00 < l.imageEnd {
      var w := if l.text < 0xC_0C00 then 0xC_0C00 else l.text;
      var v := FRAMEBUFFER_PAGE + (w - 0xC_0C00);
      assert FrameOf(m, l, v) == FrameOf(m, l, w);
    }
  }

  // ---- The whole of it ----

  /** What separation means, all at once. */
  ghost predicate FramesSeparate(m: Memory, l: Layout)
    reads m, m.ram
    requires |m.Ram()| == WORDS && 0 <= Root(l) < FRAMES && l.text <= l.imageEnd
  {
    && (forall v: nat | UserPage(v) :: v < PAGES && 0 <= FrameOf(m, l, v) && !IsKernelFrame(m, l, FrameOf(m, l, v)))
    && (forall v: nat, v': nat | UserPage(v) && UserPage(v') && v != v' :: FrameOf(m, l, v) != FrameOf(m, l, v'))
    && (forall v: nat | AllocatedPage(v) :: !InImage(l, FrameOf(m, l, v)) && !InFramebuffer(FrameOf(m, l, v)))
    && (forall f: int | IsKernelFrame(m, l, f) :: !InFramebuffer(f) && !InImage(l, f))
  }

  lemma BootedFramesSeparate(m: Memory, l: Layout)
    requires Booted(m, l)
    ensures FramesSeparate(m, l)
  {
    forall v: nat | UserPage(v)
      ensures v < PAGES && 0 <= FrameOf(m, l, v) && !IsKernelFrame(m, l, FrameOf(m, l, v))
    {
      PageFrame(m, l, v);
      if IsKernelFrame(m, l, FrameOf(m, l, v)) {
        var other := if v == USER_START then USER_START + 1 else USER_START;
        UserFramesAreSeparate(m, l, v, other, FrameOf(m, l, v));
      }
    }
    forall v: nat, v': nat | UserPage(v) && UserPage(v') && v != v'
      ensures FrameOf(m, l, v) != FrameOf(m, l, v')
    {
      UserFramesAreSeparate(m, l, v, v', Root(l));
    }
    forall v: nat | AllocatedPage(v)
      ensures !InImage(l, FrameOf(m, l, v)) && !InFramebuffer(FrameOf(m, l, v))
    {
      ProgramMissesImage(m, l, v);
    }
    forall f: int | IsKernelFrame(m, l, f)
      ensures !InFramebuffer(f) && !InImage(l, f)
    {
      KernelFrameRange(m, l, f);
      AllocatorMissesFramebuffer(l, f);
    }
  }

  /** `start` and start_user_program, one after the other, for every linker layout: user mode is
      reached exactly when the free pages suffice and the program fits its pages, with every page
      mapped as it should be and every frame where it does no harm. */
  method EnterUserMode(ram: array<Word>, l: Layout, program: seq<Word>)
    returns (m: Memory, kstack: Option<nat>, failed: bool)
    requires ram.Length == WORDS && l.Valid()
    modifies ram
    ensures m.ram == ram && !failed
    ensures kstack.Some? <==> l.Tables() + 9 <= l.memoryTop - 2 - l.imageEnd && |program| <= PROGRAM_WORDS
    ensures kstack.Some? ==>
              && kstack.value == KernelStackPage(l) && Booted(m, l) && FramesSeparate(m, l)
              && Copied(m.Ram(), Top(l), program, |program|) && FrameReady(m.Ram(), kstack.value)
  {
    hide KernelMapped, WellFormed, TablesAvoid, TablesBelow, Walk, SameBelow, Running, FramesSeparate, Copied,
        FrameReady,
         Booted, Layout.Tables, Layout.Valid, Memory.Paging, Memory.Valid, FrameOf;
    TopIsHigh(l);
    var kpgdir, bad;
    m, kpgdir, failed := Start(ram, l);
    if kpgdir.None? {
      return m, None, failed;
    }
    kstack, bad := StartUserProgram(m, kpgdir.value, l, program, Top(l));
    failed := failed || bad;
    if kstack.Some? {
      NowBooted(m, l);
    }
  }

  lemma TopIsHigh(l: Layout)
    requires l.Valid()
    ensures l.text <= l.imageEnd && 8 <= Top(l) <= Root(l) < FRAMES
  {
  }

  lemma NowBooted(m: Memory, l: Layout)
    requires l.Valid() && 8 <= Top(l) && 0 <= Root(l) && Running(m, Root(l), l, Top(l)) &&
        m.paTop == (Top(l) - 8) * 4096
    requires m.paStart == (Root(l) + 1) * 4096 && m.paBottom == (l.imageEnd - 0x8_0000) * 4096
    requires {Top(l) - 1, Top(l) - 3, Top(l) - 4, Top(l) - 5, Top(l) - 6, Top(l) - 8} <= m.handedOut
    ensures Booted(m, l) && FramesSeparate(m, l)
  {
    hide FramesSeparate;
    assert Root(l) < FRAMES;
    BootedFramesSeparate(m, l);
  }

  function KernelStackPage(l: Layout): int
    requires l.text <= l.imageEnd
  {
    (Top(l) - 8) * 4096
  }

  // ---- The first moment of user mode ----

  /** Word `k` of virtual page `v`. */
  function PageWord(v: nat, k: nat): Word
    requires v < PAGES && k < 1024
  {
    v * 4096 + 4 * k
  }

  /** The hart sees memory through the page table. */
  ghost predicate Sees(m: Memory, l: Layout, mem: Rv.Mem)
    reads m, m.ram
    requires |m.Ram()| == WORDS && 0 <= Root(l) < FRAMES
  {
    forall v: nat, k: nat | v < PAGES && k < 1024 && 0 <= FrameOf(m, l, v) < FRAMES ::
      Rv.Load(mem, PageWord(v, k)) == m.Ram()[FrameOf(m, l, v) * 1024 + k]
  }

  /** The virtual address of the frame on the kernel stack. */
  function EntryFrame(l: Layout): int
    requires l.text <= l.imageEnd
  {
    KernelStackPage(l) + KVA_OFFSET + 4096 - KSTACK_TOP
  }

  lemma StackPageIsMapped(m: Memory, l: Layout)
    requires Booted(m, l)
    ensures 0 <= EntryFrame(l) < 0x1_0000_0000 - 4096 && 0 <= KernelStackPage(l)
    ensures var v := Top(l) - 8 + 0x8_0000; v < PAGES && FrameOf(m, l, v) == Top(l) - 8
  {
    assert UserMap(Top(l), Top(l) - 8 + 0x8_0000) == None;
  }

  /** user_mode_entry on the frame that start_user_program leaves begins the program: pc at the
      first word of it, sp at the top of its stack, every other register zero, and sscratch
      where the next trap finds room for this very frame. */
  lemma UserModeBegins(m: Memory, l: Layout, program: seq<Word>, h: Trap.Hart)
    requires Booted(m, l) && Sees(m, l, h.mem) && |program| <= 4 * 1024
    requires FrameReady(m.Ram(), KernelStackPage(l)) && Copied(m.Ram(), Top(l), program, |program|)
    ensures 0 <= EntryFrame(l) < 0x1_0000_0000
    ensures var u := Trap.UserModeEntry(h, EntryFrame(l));
            && u.pc == 0x1000_0000 && u.x[Rv.SP] == 0x1040_0000
            && (forall r: Rv.Reg | r != Rv.SP :: u.x[r] == 0)
            && u.sscratch == KernelStackPage(l) + 0x8000_0000 + 4096 - 32
            && forall k | 0 <= k < |program| :: Rv.Load(u.mem, u.pc + 4 * k) == program[k]
  {
    StackPageIsMapped(m, l);
    var ef: Word := EntryFrame(l);
    var x: Rv.Regs := seq(32, r => if r == Rv.SP then USER_STACK * 4096 else 0);
    EntryFrameHolds(m, l, h.mem, x);
    var h' := h.(x := h.x[Rv.SP := ef][Rv.TP := Rv.Addr(ef, Trap.FRAME)]);
    Trap.ExitRestores(h', x, USER_START * 4096);
    hide FrameOf, Trap.Exit, Trap.Holds, FrameReady;
    forall k | 0 <= k < |program|
      ensures Rv.Load(h.mem, USER_START * 4096 + 4 * k) == program[k]
    {
      ProgramIsSeen(m, l, program, h.mem, k);
    }
  }

  lemma ProgramIsSeen(m: Memory, l: Layout, program: seq<Word>, mem: Rv.Mem, k: nat)
    requires Booted(m, l) && Sees(m, l, mem) && k < |program| <= PROGRAM_WORDS
    requires Copied(m.Ram(), Top(l), program, |program|)
    ensures Rv.Load(mem, USER_START * 4096 + 4 * k) == program[k]
  {
    var v := USER_START + k / 1024;
    assert UserMap(Top(l), v).Some?;
    assert FrameOf(m, l, v) == ProgramFrame(Top(l), k / 1024);
    assert PageWord(v, k % 1024) == USER_START * 4096 + 4 * k;
    assert m.Ram()[ProgramWord(Top(l), k)] == program[k];
  }

  lemma EntryFrameHolds(m: Memory, l: Layout, mem: Rv.Mem, x: Rv.Regs)
    requires Booted(m, l) && Sees(m, l, mem) && FrameReady(m.Ram(), KernelStackPage(l))
    requires 0 <= EntryFrame(l) < 0x1_0000_0000
    requires forall r: Rv.Reg :: x[r] == if r == Rv.SP then USER_STACK * 4096 else 0
    ensures Trap.Holds(mem, EntryFrame(l), x, USER_START * 4096)
  {
    Trap.RowsCoverRegisters();
    hide Trap.CALLER_SAVED, Trap.CALLEE_SAVED, Trap.RowOf;
    forall k | 0 <= k < 32
      ensures Rv.Load(mem, Rv.Addr(EntryFrame(l), 4 * k)) ==
              if k == 16 then USER_START * 4096 else if k == 17 then USER_STACK * 4096 else 0
    {
      FrameWordIsSeen(m, l, mem, k);
    }
    assert Rv.Load(mem, Rv.Addr(EntryFrame(l), 4 * 16)) == USER_START * 4096;
    assert Rv.Load(mem, Rv.Addr(EntryFrame(l), 4 * 17)) == USER_STACK * 4096;
    forall i | 0 <= i < |Trap.CALLEE_SAVED|
      ensures Rv.Load(mem, Rv.Addr(EntryFrame(l), Trap.CALLEE_SAVED[i].off)) == 0
    {
      assert Trap.CALLEE_SAVED[i].off == 4 * (18 + i);
    }
  }

  lemma FrameWordIsSeen(m: Memory, l: Layout, mem: Rv.Mem, k: nat)
    requires Booted(m, l) && Sees(m, l, mem) && FrameReady(m.Ram(), KernelStackPage(l)) && k < 32
    requires 0 <= EntryFrame(l) < 0x1_0000_0000
    ensures Rv.Load(mem, Rv.Addr(EntryFrame(l), 4 * k)) ==
            if k == 16 then USER_START * 4096 else if k == 17 then USER_STACK * 4096 else 0
  {
    hide FrameOf, Booted, PageWord, FrameWord, Top, Rv.Addr, Running;
    StackPageIsMapped(m, l);
    InRange(m, l);
    var v := Top(l) - 8 + 0x8_0000;
    EntryAddress(Top(l) - 8, k);
    var n := (4096 - KSTACK_TOP) / 4 + k;
    assert Rv.Load(mem, PageWord(v, n)) == m.Ram()[FrameOf(m, l, v) * 1024 + n];
  }

  lemma InRange(m: Memory, l: Layout)
    requires Booted(m, l)
    ensures |m.Ram()| == WORDS && 0 <= Root(l) < FRAMES && l.text <= l.imageEnd
    ensures 0 <= Top(l) - 8 < FRAMES - 0x8_0000
  {
  }

  /** The words of the frame, by virtual and by physical address. */
  lemma EntryAddress(f: nat, k: nat)
    requires f < FRAMES - 0x8_0000 && k < 32 && f * 4096 + KVA_OFFSET < 0x1_0000_0000
    ensures var n := (4096 - KSTACK_TOP) / 4 + k;
            && Rv.Addr(f * 4096 + KVA_OFFSET + 4096 - KSTACK_TOP, 4 * k) == PageWord(f + 0x8_0000, n)
            && FrameWord(f * 4096, k) == f * 1024 + n
  {
  }
}
