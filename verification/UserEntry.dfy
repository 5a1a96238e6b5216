/** xos/src/kernel.c: start_user_program, with the copy of the program through the new mapping
    and the frame from which user mode is entered. */
module UserEntry {
  import opened Common
  import opened Sv32
  import opened Vmm
  import opened Kernel
  import opened UserSpace

  const PROGRAM_WORDS := 4096  // what the four text/data pages hold
  const KSTACK_TOP := 160      // sizeof(kstack_top_t): an eframe_t and a thread_t

  function AllPages(top: nat): Mappings
    requires 8 <= top
  {
    UserPages(top) + FramebufferPages(FRAMEBUFFER_FRAMES)
  }

  /** The frame behind each of the four text/data pages. */
  function ProgramFrame(top: nat, i: nat): nat
    requires 8 <= top && i < 4
  {
    if i == 0 then top - 1 else top - 2 - i
  }

  /** Where word `k` of the program belongs in physical memory. */
  function ProgramWord(top: nat, k: nat): (a: nat)
    requires 8 <= top && k < PROGRAM_WORDS
    ensures top <= FRAMES ==> a < WORDS
  {
    ProgramFrame(top, k / 1024) * 1024 + k % 1024
  }

  lemma ProgramWordsDiffer(top: nat, j: nat, k: nat)
    requires 8 <= top && j < k < PROGRAM_WORDS
    ensures ProgramWord(top, j) != ProgramWord(top, k)
  {
    if j / 1024 == k / 1024 {
      assert j % 1024 != k % 1024;
    }
  }

  /** The first `n` words of the program are where user mode will find them. */
  ghost predicate Copied(mem: seq<Word>, top: nat, program: seq<Word>, n: nat)
    requires 8 <= top && top <= FRAMES && |mem| == WORDS && n <= |program| && n <= PROGRAM_WORDS
  {
    forall k: nat | k < n :: mem[ProgramWord(top, k)] == program[k]
  }

  ghost predicate Ready(m: Memory, kpgdir: nat, l: Layout, top: nat, used: nat)
    reads m, m.ram
    requires 8 <= top
  {
    && top <= kpgdir / 4096 && UserProgress(m, kpgdir, l, AllPages(top), top, used)
    && {top - 1, top - 3, top - 4, top - 5, top - 6} <= m.handedOut
  }

  lemma TopFits(m: Memory, kpgdir: nat, l: Layout, top: nat, used: nat)
    requires 8 <= top && Ready(m, kpgdir, l, top, used)
    ensures top < FRAMES && kpgdir / 4096 < FRAMES && m.ram.Length == WORDS && |m.Ram()| == WORDS
  {
  }

  /** How the program's pages translate. */
  lemma ProgramPage(m: Memory, kpgdir: nat, l: Layout, top: nat, used: nat, i: nat)
    requires 8 <= top && Ready(m, kpgdir, l, top, used) && i <= 4
    ensures Walk(m.Ram(), kpgdir / 4096, USER_START + i) ==
            if i < 4 then Some(Leaf(ProgramFrame(top, i), USER_RWX)) else None
    ensures i < 4 ==> ProgramFrame(top, i) in m.handedOut
  {
    LookupUserPages(top, USER_START + i);
    hide Lookup, UserPages, FramebufferPages, Walk, WellFormed, TablesAvoid, TablesBelow;
  }

  /** A frame of the callers' is no table: writing there changes memory and nothing else. */
  lemma OwnFrame(m: Memory, before: seq<Word>, kpgdir: nat, l: Layout, pages: Mappings, f: nat)
    requires m.Valid() && |before| == WORDS && f in m.handedOut && f != kpgdir / 4096 && kpgdir % 4096 == 0
    requires WellFormed(before, kpgdir / 4096, m.paTop / 4096) && UserMapped(before, kpgdir / 4096, l, pages)
    requires TablesAvoid(before, kpgdir / 4096, m.handedOut) && TablesBelow(before, kpgdir / 4096, m.paStart / 4096)
    requires forall k | 0 <= k < WORDS && !(f * 1024 <= k < f * 1024 + 1024) :: m.Ram()[k] == before[k]
    ensures m.Paging(kpgdir / 4096) && UserMapped(m.Ram(), kpgdir / 4096, l, pages)
  {
    WriteOutsideTables(before, m.Ram(), kpgdir / 4096, m.paTop / 4096, f);
    hide WellFormed, Walk, TablesBelow;
  }

  /** One word of the memcpy: a store through the page table, which faults behind the pages. */
  method StoreWord(m: Memory, kpgdir: nat, l: Layout, k: nat, w: Word, ghost top: nat, ghost used: nat)
      returns (ok: bool)
    requires 8 <= top && Ready(m, kpgdir, l, top, used) && k <= PROGRAM_WORDS
    modifies m.ram
    ensures ok <==> k < PROGRAM_WORDS
    ensures ok ==> Ready(m, kpgdir, l, top, used) && |old(m.Ram())| == WORDS && top < FRAMES
    ensures ok ==> m.Ram() == old(m.Ram())[ProgramWord(top, k) := w]
  {
    hide WellFormed, TablesAvoid, TablesBelow, UserMapped, Walk, UserProgress, AllPages;
    var va := USER_START * 4096 + 4 * k;
    VirtualWord(k);
    TopFits(m, kpgdir, l, top, used);
    ProgramPage(m, kpgdir, l, top, used, k / 1024);
    var leaf := Walk(m.ram[..], kpgdir / 4096, va / 4096);
    if leaf.None? {
      return false;
    }
    ghost var before := m.Ram();
    assert leaf.value.ppn == ProgramFrame(top, k / 1024);
    var a := leaf.value.ppn * 1024 + va % 4096 / 4;
    assert a == ProgramWord(top, k);
    BeforeStore(m, kpgdir, l, top, used);
    m.ram[a] := w;
    assert m.Ram() == before[a := w];
    OwnFrame(m, before, kpgdir, l, AllPages(top), leaf.value.ppn);
    AfterStore(m, kpgdir, l, top, used);
    ok := true;
  }

  lemma VirtualWord(k: nat)
    requires k <= PROGRAM_WORDS
    ensures var va := USER_START * 4096 + 4 * k;
            && va / 4096 == USER_START + k / 1024 && va % 4096 / 4 == k % 1024 && (k / 1024 < 4 <==> k < PROGRAM_WORDS)
  {
  }

  lemma BeforeStore(m: Memory, kpgdir: nat, l: Layout, top: nat, used: nat)
    requires 8 <= top && Ready(m, kpgdir, l, top, used)
    ensures m.Valid() && kpgdir % 4096 == 0 && m.paTop == (top - used) * 4096
    ensures WellFormed(m.Ram(), kpgdir / 4096, m.paTop / 4096) && UserMapped(m.Ram(), kpgdir / 4096, l, AllPages(top))
    ensures TablesAvoid(m.Ram(), kpgdir / 4096, m.handedOut) && TablesBelow(m.Ram(), kpgdir / 4096, m.paStart / 4096)
  {
    hide WellFormed, TablesAvoid, TablesBelow, UserMapped;
  }

  lemma AfterStore(m: Memory, kpgdir: nat, l: Layout, top: nat, used: nat)
    requires 8 <= top <= kpgdir / 4096 && kpgdir % 4096 == 0 && m.paTop == (top - used) * 4096
    requires m.Paging(kpgdir / 4096) && UserMapped(m.Ram(), kpgdir / 4096, l, AllPages(top))
    requires {top - 1, top - 3, top - 4, top - 5, top - 6} <= m.handedOut
    ensures Ready(m, kpgdir, l, top, used)
  {
    hide WellFormed, TablesAvoid, TablesBelow, UserMapped;
  }

  /** memcpy(user_start, ...) of a program padded to whole words: all of it, or a fault. */
  method CopyProgram(m: Memory, kpgdir: nat, l: Layout, program: seq<Word>, ghost top: nat, ghost used: nat)
      returns (ok: bool)
    requires 8 <= top && Ready(m, kpgdir, l, top, used)
    modifies m.ram
    ensures ok <==> |program| <= PROGRAM_WORDS
    ensures ok ==> Ready(m, kpgdir, l, top, used) && top < FRAMES
    ensures ok ==> |m.Ram()| == WORDS && Copied(m.Ram(), top, program, |program|)
  {
    hide Ready, ProgramWord;
    TopFits(m, kpgdir, l, top, used);
    var k := 0;
    while k < |program|
      invariant 0 <= k <= |program| && k <= PROGRAM_WORDS
      invariant Ready(m, kpgdir, l, top, used) && |m.Ram()| == WORDS && Copied(m.Ram(), top, program, k)
    {
      ghost var before := m.Ram();
      ok := StoreWord(m, kpgdir, l, k, program[k], top, used);
      if !ok {
        return;
      }
      forall j: nat | j < k
        ensures m.Ram()[ProgramWord(top, j)] == program[j]
      {
        ProgramWordsDiffer(top, j, k);
        assert before[ProgramWord(top, j)] == program[j];
      }
      k := k + 1;
    }
    ok := true;
  }

  /** The frame at the top of the kernel stack page `page`: zeros but for pc and sp. */
  ghost predicate FrameReady(mem: seq<Word>, page: nat)
    requires |mem| == WORDS
  {
    && page % 4096 == 0 && page / 4 + 1024 <= WORDS
    && forall k | 0 <= k < 32 ::
         mem[FrameWord(page, k)] == if k == 16 then USER_START * 4096 else if k == 17 then USER_STACK * 4096 else 0
  }

  /** Word `k` of that frame in physical memory. */
  function FrameWord(page: nat, k: nat): nat
    requires page % 4096 == 0 && k < 32
    ensures page / 4 <= FrameWord(page, k) < page / 4 + 1024
  {
    page / 4 + (4096 - KSTACK_TOP) / 4 + k
  }

  /** kpage_alloc_z for the kernel stack, and the two stores into its frame. */
  method KernelStack(m: Memory, kpgdir: nat, l: Layout, program: seq<Word>, ghost top: nat)
      returns (kstack: Option<nat>)
    requires 8 <= top && Ready(m, kpgdir, l, top, 7) && |program| <= PROGRAM_WORDS
    requires top < FRAMES && |m.Ram()| == WORDS && Copied(m.Ram(), top, program, |program|)
    modifies m`paTop, m`handedOut, m.ram
    ensures kstack.Some? <==> m.paBottom <= (top - 8) * 4096
    ensures kstack.Some? ==>
              && kstack.value == (top - 8) * 4096
              && Ready(m, kpgdir, l, top, 8) && m.handedOut == old(m.handedOut) + {top - 8}
              && |m.Ram()| == WORDS && Copied(m.Ram(), top, program, |program|) && FrameReady(m.Ram(), (top - 8) * 4096)
  {
    hide WellFormed, TablesAvoid, TablesBelow, UserMapped, Walk, AllPages;
    kstack := AllocFrame(m, kpgdir, l, AllPages(top), top, 7);
    if kstack.Some? {
      ghost var before := m.Ram();
      BeforeStore(m, kpgdir, l, top, 8);
      var frame := (kstack.value + 4096 - KSTACK_TOP) / 4;
      m.ram[frame + 16] := USER_START * 4096;  // kst->eframe.pc
      m.ram[frame + 17] := USER_STACK * 4096;  // kst->eframe.sp
      assert m.paTop / 4096 == top - 8 && m.paTop / 4 == (top - 8) * 1024;
      assert forall k | 0 <= k < WORDS && !((top - 8) * 1024 <= k < (top - 8) * 1024 + 1024) :: m.Ram()[k] == before[k];
      OwnFrame(m, before, kpgdir, l, AllPages(top), top - 8);
      AfterStore(m, kpgdir, l, top, 8);
      hide UserProgress;
    }
  }

  /** start_user_program. Eight frames are taken: five user pages, two page tables and the
      kernel stack page, which is returned; None is a panic or, for a program of more than four
      pages, a fault. */
  method StartUserProgram(m: Memory, kpgdir: nat, l: Layout, program: seq<Word>, ghost top: nat)
    returns (kstack: Option<nat>, failed: bool)
    requires 8 <= top && m.paTop == top * 4096
    requires kpgdir % 4096 == 0 && m.Paging(kpgdir / 4096) && KernelMapped(m.Ram(), kpgdir / 4096, l)
    modifies m`paTop, m`handedOut, m.ram
    ensures !failed
    ensures kstack.Some? <==> m.paBottom <= (top - 8) * 4096 && |program| <= PROGRAM_WORDS
    ensures kstack.Some? ==>
              && kstack.value == (top - 8) * 4096 == m.paTop
              && m.handedOut == old(m.handedOut) + {top - 1, top - 3, top - 4, top - 5, top - 6, top - 8}
              && Running(m, kpgdir / 4096, l, top)
              && top < FRAMES && Copied(m.Ram(), top, program, |program|) && FrameReady(m.Ram(), kstack.value)
  {
    DirectoryAbove(m, kpgdir, l, top);
    hide WellFormed, TablesAvoid, TablesBelow, Walk, KernelMapped, UserMapped, Copied, FrameReady;
    assert UserProgress(m, kpgdir, l, [], top, 0);
    var ok, bad;
    ok, failed := MapUserPages(m, kpgdir, l, top);
    if !ok { return None, failed; }
    UserPagesLeaveFramebuffer(top);
    ok, bad := MapFramebuffer(m, kpgdir, l, UserPages(top), top, 6);
    failed := failed || bad;
    if !ok { return None, failed; }
    ok := CopyProgram(m, kpgdir, l, program, top, 7);
    if !ok { return None, failed; }
    kstack := KernelStack(m, kpgdir, l, program, top);
    if kstack.Some? {
      FinalMap(m, kpgdir, l, top);
    }
  }

  lemma DirectoryAbove(m: Memory, kpgdir: nat, l: Layout, top: nat)
    requires m.paTop == top * 4096 && kpgdir % 4096 == 0 && m.Paging(kpgdir / 4096)
    requires KernelMapped(m.Ram(), kpgdir / 4096, l) && 8 <= top
    ensures top <= kpgdir / 4096 && UserProgress(m, kpgdir, l, [], top, 0)
  {
  }
}
