/** xos/src/kernel.c: what `start_user_program` and `map_framebuffer` add to the kernel's
    page table, and which frames end up behind user pages. */
module UserSpace {
  import opened Common
  import opened Sv32
  import opened Vmm
  import opened Kernel

  const USER_START := 0x1_0000        // page of 0x10000000
  const USER_STACK := 0x1_0400        // page of 0x10400000
  const FRAMEBUFFER_PAGE := 0x2_0000  // page of 0x20000000
  const FRAMEBUFFER_FRAME := 0x4_0C00 // frame of FRAMEBUFFER_BASE
  const FRAMEBUFFER_FRAMES := 150
  const FRAMEBUFFER_VA := 0x2000_0000
  const FRAMEBUFFER_BASE := 0x40C0_0000
  const FRAMEBUFFER_SIZE := 640 * 480 * 2

  /** User pages mapped so far, in call order. */
  type Mappings = seq<(nat, Leaf)>

  function Lookup(pages: Mappings, page: nat): Option<Leaf> {
    if pages == [] then None
    else
      var (p, leaf) := pages[|pages| - 1];
      if p == page then Some(leaf) else Lookup(pages[..|pages| - 1], page)
  }

  predicate UsesSlotOf(pages: Mappings, i: nat) {
    pages != [] && (pages[|pages| - 1].0 / 1024 == i || UsesSlotOf(pages[..|pages| - 1], i))
  }

  /** `root` translates the kernel pages and `pages`, and nothing else. */
  ghost predicate UserMapped(mem: seq<Word>, root: nat, l: Layout, pages: Mappings)
  {
    && |mem| == WORDS && root < FRAMES && l.Valid()
    && (forall v: nat | v < PAGES ::
          Walk(mem, root, v) == if Lookup(pages, v).Some? then Lookup(pages, v) else l.KernelMap(v))
    && (forall i: nat | i < 1024 ::
          DirUsed(mem, root, i) == (UsesSlotOf(pages, i) || i == 960 || l.SlotUsed(l.memoryTop, i)))
  }

  lemma UserMappedStep(mem: seq<Word>, mem': seq<Word>, root: nat, l: Layout, pages: Mappings, page: nat, leaf: Leaf)
    requires UserMapped(mem, root, l, pages)
    requires MapsPage(mem, mem', root, page, leaf.ppn, leaf.flags) && UsesSlot(mem, mem', root, page / 1024)
    ensures UserMapped(mem', root, l, pages + [(page, leaf)])
  {
    assert (pages + [(page, leaf)])[..|pages|] == pages;
  }

  /** The state between two map calls: `used` of the frames below `top` are gone. */
  ghost predicate UserProgress(m: Memory, kpgdir: nat, l: Layout, pages: Mappings, top: nat, used: nat)
    reads m, m.ram
  {
    && kpgdir % 4096 == 0 && m.Paging(kpgdir / 4096)
    && UserMapped(m.Ram(), kpgdir / 4096, l, pages)
    && m.paTop == (top - used) * 4096
  }

  /** vm_map_4k for a user page that is not mapped yet: it takes a table frame for the first
      page of a directory slot, and panics only when there is none. */
  method MapUser(m: Memory, kpgdir: nat, l: Layout, va: Word, pa: Word, flags: Word,
                 ghost pages: Mappings, ghost page: nat, ghost frame: nat, ghost top: nat, ghost used: nat)
    returns (r: Status)
    requires va == page * 4096 && page < 0xC_0000 && pa == frame * 4096 && flags < 1024 && ValidLeaf(flags)
    requires UserProgress(m, kpgdir, l, pages, top, used) && Lookup(pages, page) == None
    modifies m`paTop, m`handedOut, m.ram
    ensures m.handedOut == old(m.handedOut)
    ensures var used' := used + if UsesSlotOf(pages, page / 1024) then 0 else 1;
            && r == (if m.paBottom <= (top - used') * 4096 then Ok else Panic)
            && (r == Ok ==> UserProgress(m, kpgdir, l, pages + [(page, Leaf(frame, flags))], top, used'))
  {
    hide WellFormed, TablesAvoid, TablesBelow, Walk;
    ghost var before := m.Ram();
    assert va / 4096 == page && va % 4096 == 0 && flags % 1024 == flags && pa / 4096 == frame;
    assert !l.SlotUsed(l.memoryTop, page / 1024) && page / 1024 != 960;
    r := m.VmMap4k(kpgdir, va, pa, flags);
    if r == Ok {
      UserMappedStep(before, m.Ram(), kpgdir / 4096, l, pages, page, Leaf(frame, flags));
    }
  }

  /** vm_map_4k(kpgdir, va, ppage_alloc_z(), flags). */
  method MapFresh(m: Memory, kpgdir: nat, l: Layout, va: Word, flags: Word,
                  ghost pages: Mappings, ghost page: nat, ghost top: nat, ghost used: nat)
    returns (r: Status)
    requires va == page * 4096 && page < 0xC_0000 && flags < 1024 && ValidLeaf(flags)
    requires UserProgress(m, kpgdir, l, pages, top, used) && Lookup(pages, page) == None
    modifies m`paTop, m`handedOut, m.ram
    ensures var used' := used + if UsesSlotOf(pages, page / 1024) then 1 else 2;
            && r == (if m.paBottom <= (top - used') * 4096 then Ok else Panic)
            && (r == Ok ==>
                  && UserProgress(m, kpgdir, l, pages + [(page, Leaf(top - used - 1, flags))], top, used')
                  && m.handedOut == old(m.handedOut) + {top - used - 1})
  {
    var frame := AllocFrame(m, kpgdir, l, pages, top, used);
    if frame.None? {
      return Panic;
    }
    r := MapUser(m, kpgdir, l, va, frame.value, flags, pages, page, top - used - 1, top, used + 1);
  }

  /** ppage_alloc_z (or kpage_alloc_z) between map calls. */
  method AllocFrame(m: Memory, kpgdir: nat, l: Layout, ghost pages: Mappings, ghost top: nat, ghost used: nat)
    returns (pa: Option<nat>)
    requires UserProgress(m, kpgdir, l, pages, top, used)
    modifies m`paTop, m`handedOut, m.ram
    ensures pa.Some? <==> m.paBottom <= (top - used - 1) * 4096
    ensures pa.Some? ==>
              && pa.value == (top - used - 1) * 4096
              && UserProgress(m, kpgdir, l, pages, top, used + 1)
              && m.handedOut == old(m.handedOut) + {top - used - 1}
              && forall k | 0 <= k < WORDS ::
                   m.ram[k] == if m.paTop / 4 <= k < m.paTop / 4 + 1024 then 0 else old(m.ram[k])
  {
    ghost var before := m.Ram();
    pa := m.PpageAllocZ();
    if pa.Some? {
      HandOutFrame(before, m.Ram(), kpgdir / 4096, top - used, old(m.handedOut));
      assert m.paTop / 4096 == top - used - 1;
    }
  }

  // ---- The frames behind the user pages ----

  /** Frame of each of the five user pages; frame `top - 2` becomes their page table. */
  function UserPages(top: nat): Mappings
    requires 8 <= top
  {
    [(USER_START, Leaf(top - 1, USER_RWX)), (USER_START + 1, Leaf(top - 3, USER_RWX)),
     (USER_START + 2, Leaf(top - 4, USER_RWX)), (USER_START + 3, Leaf(top - 5, USER_RWX)),
     (USER_STACK - 1, Leaf(top - 6, USER_RW))]
  }

  function FramebufferPages(n: nat): Mappings {
    seq(n, (k: nat) => (FRAMEBUFFER_PAGE + k, Leaf(FRAMEBUFFER_FRAME + k, USER_RW)))
  }

  /** The user half of the address space in closed form. */
  function UserMap(top: nat, page: nat): Option<Leaf>
    requires 8 <= top
  {
    if page == USER_START then Some(Leaf(top - 1, USER_RWX))
    else if USER_START < page < USER_START + 4 then Some(Leaf(top - 2 - (page - USER_START), USER_RWX))
    else if page == USER_STACK - 1 then Some(Leaf(top - 6, USER_RW))
    else if FRAMEBUFFER_PAGE <= page < FRAMEBUFFER_PAGE + FRAMEBUFFER_FRAMES then
      Some(Leaf(FRAMEBUFFER_FRAME + (page - FRAMEBUFFER_PAGE), USER_RW))
    else None
  }

  lemma Appended(pages: Mappings, page: nat, leaf: Leaf)
    ensures forall q :: Lookup(pages + [(page, leaf)], q) == if q == page then Some(leaf) else Lookup(pages, q)
    ensures forall i :: UsesSlotOf(pages + [(page, leaf)], i) == (i == page / 1024 || UsesSlotOf(pages, i))
  {
    assert (pages + [(page, leaf)])[..|pages|] == pages;
  }

  lemma {:induction false} LookupFramebuffer(base: Mappings, n: nat, page: nat, i: nat)
    requires n <= FRAMEBUFFER_FRAMES
    ensures Lookup(base + FramebufferPages(n), page) ==
            if FRAMEBUFFER_PAGE <= page < FRAMEBUFFER_PAGE + n
            then Some(Leaf(FRAMEBUFFER_FRAME + (page - FRAMEBUFFER_PAGE), USER_RW))
            else Lookup(base, page)
    ensures UsesSlotOf(base + FramebufferPages(n), i) ==
        (UsesSlotOf(base, i) || (0 < n && i == FRAMEBUFFER_PAGE / 1024))
  {
    var all := base + FramebufferPages(n);
    if n == 0 {
      assert all == base;
    } else {
      assert FramebufferPages(n) == FramebufferPages(n - 1) + [FramebufferPages(n)[n - 1]];
      assert all[..|all| - 1] == base + FramebufferPages(n - 1);
      LookupFramebuffer(base, n - 1, page, i);
    }
  }

  /** Each user page is new when it is mapped, and all five share one directory slot. */
  lemma PrefixLookups(top: nat)
    requires 8 <= top
    ensures var p := UserPages(top);
            forall j | 0 <= j <= 5 ::
              && (forall page ::
                    Lookup(p[..j], page) == if exists k | 0 <= k < j :: p[k].0 == page then UserMap(top, page)
                      else None)
              && (forall i :: UsesSlotOf(p[..j], i) == (0 < j && i == USER_START / 1024))
  {
    var p := UserPages(top);
    assert p[..5] == p[..4] + [p[4]] && p[..4] == p[..3] + [p[3]] && p[..3] == p[..2] + [p[2]] &&
        p[..2] == p[..1] + [p[1]];
    assert p[..1] == [] + [p[0]] && p[..0] == [];
    Appended(p[..4], p[4].0, p[4].1);
    Appended(p[..3], p[3].0, p[3].1);
    Appended(p[..2], p[2].0, p[2].1);
    Appended(p[..1], p[1].0, p[1].1);
    Appended([], p[0].0, p[0].1);
  }

  lemma LookupUserPages(top: nat, page: nat)
    requires 8 <= top
    ensures Lookup(UserPages(top) + FramebufferPages(FRAMEBUFFER_FRAMES), page) == UserMap(top, page)
  {
    var p := UserPages(top);
    LookupFramebuffer(p, FRAMEBUFFER_FRAMES, page, 0);
    PrefixLookups(top);
    assert p[..5] == p;
    assert page == USER_START ==> p[0].0 == page;
    assert page == USER_START + 1 ==> p[1].0 == page;
    assert page == USER_START + 2 ==> p[2].0 == page;
    assert page == USER_START + 3 ==> p[3].0 == page;
    assert page == USER_STACK - 1 ==> p[4].0 == page;
  }

  lemma UserPagesLeaveFramebuffer(top: nat)
    requires 8 <= top
    ensures forall page | FRAMEBUFFER_PAGE <= page < FRAMEBUFFER_PAGE + FRAMEBUFFER_FRAMES ::
        Lookup(UserPages(top), page) == None
    ensures !UsesSlotOf(UserPages(top), FRAMEBUFFER_PAGE / 1024)
  {
    PrefixLookups(top);
    assert UserPages(top)[..5] == UserPages(top);
  }

  /** Page `k` of map_framebuffer; only the first page takes a table frame. */
  method MapFramebufferPage(m: Memory, kpgdir: nat, l: Layout, n: nat, ghost k: nat,
                            ghost base: Mappings, ghost top: nat, ghost used: nat) returns (r: Status)
    requires k < FRAMEBUFFER_FRAMES && n == k * 4096
    requires UserProgress(m, kpgdir, l, base + FramebufferPages(k), top, if k == 0 then used else used + 1)
    requires Lookup(base, FRAMEBUFFER_PAGE + k) == None && !UsesSlotOf(base, FRAMEBUFFER_PAGE / 1024)
    modifies m`paTop, m`handedOut, m.ram
    ensures m.handedOut == old(m.handedOut)
    ensures r == if m.paBottom <= (top - used - 1) * 4096 then Ok else Panic
    ensures r == Ok ==> UserProgress(m, kpgdir, l, base + FramebufferPages(k + 1), top, used + 1)
  {
    hide UserProgress, Lookup, UsesSlotOf;
    ghost var pages := base + FramebufferPages(k);
    LookupFramebuffer(base, k, FRAMEBUFFER_PAGE + k, FRAMEBUFFER_PAGE / 1024);
    r := MapUser(m, kpgdir, l, FRAMEBUFFER_VA + n, FRAMEBUFFER_BASE + n, USER_RW,
                 pages, FRAMEBUFFER_PAGE + k, FRAMEBUFFER_FRAME + k, top, if k == 0 then used else used + 1);
    assert pages + [(FRAMEBUFFER_PAGE + k, Leaf(FRAMEBUFFER_FRAME + k, USER_RW))] == base + FramebufferPages(k + 1);
  }

  lemma NoPagesYet(base: Mappings)
    ensures base + FramebufferPages(0) == base
  {
  }

  /** map_framebuffer. */
  method MapFramebuffer(m: Memory, kpgdir: nat, l: Layout, ghost base: Mappings, ghost top: nat, ghost used: nat)
    returns (ok: bool, failed: bool)
    requires UserProgress(m, kpgdir, l, base, top, used)
    requires forall page | FRAMEBUFFER_PAGE <= page < FRAMEBUFFER_PAGE + FRAMEBUFFER_FRAMES ::
        Lookup(base, page) == None
    requires !UsesSlotOf(base, FRAMEBUFFER_PAGE / 1024)
    modifies m`paTop, m`handedOut, m.ram
    ensures !failed && m.handedOut == old(m.handedOut)
    ensures ok <==> m.paBottom <= (top - used - 1) * 4096
    ensures ok ==> UserProgress(m, kpgdir, l, base + FramebufferPages(FRAMEBUFFER_FRAMES), top, used + 1)
  {
    hide UserProgress, Lookup, UsesSlotOf, FramebufferPages;
    NoPagesYet(base);
    ok, failed := true, false;
    var n := 0;
    ghost var k := 0;
    while n < FRAMEBUFFER_SIZE
      invariant 0 <= k <= FRAMEBUFFER_FRAMES && n == k * 4096
      invariant ok && !failed && m.handedOut == old(m.handedOut)
      invariant UserProgress(m, kpgdir, l, base + FramebufferPages(k), top, if k == 0 then used else used + 1)
      invariant 0 < k ==> m.paBottom <= (top - used - 1) * 4096
    {
      var r := MapFramebufferPage(m, kpgdir, l, n, k, base, top, used);
      if r == Panic {
        ok := false;
        return;
      }
      failed := failed || r != Ok;
      n, k := n + 4096, k + 1;
    }
  }

  /** Frames gone after the first `j` of the five user pages: one extra for the page table. */
  function Used(j: nat): nat { if j == 0 then 0 else j + 1 }

  /** The frames of the first `j` user pages. */
  ghost function Handed(top: nat, j: nat): set<nat>
    requires 8 <= top && j <= 5
  {
    set k: nat | k < j :: UserPages(top)[k].1.ppn
  }

  lemma HandedNext(top: nat, j: nat)
    requires 8 <= top && j < 5
    ensures Handed(top, j + 1) == Handed(top, j) + {UserPages(top)[j].1.ppn}
  {
  }

  lemma HandedAll(top: nat)
    requires 8 <= top
    ensures Handed(top, 0) == {} && Handed(top, 5) == {top - 1, top - 3, top - 4, top - 5, top - 6}
  {
    assert Handed(top, 0) == {};
    HandedNext(top, 0);
    HandedNext(top, 1);
    HandedNext(top, 2);
    HandedNext(top, 3);
    HandedNext(top, 4);
    hide Handed;
  }

  /** The `j`th of these calls; `owned` is what the callers owned before the first. */
  method MapUserPage(m: Memory, kpgdir: nat, l: Layout, va: Word, flags: Word,
                     ghost j: nat, ghost top: nat, ghost owned: set<nat>) returns (r: Status)
    requires 8 <= top && j < 5
    requires va == UserPages(top)[j].0 * 4096 && flags == UserPages(top)[j].1.flags
    requires UserProgress(m, kpgdir, l, UserPages(top)[..j], top, Used(j)) && m.handedOut == owned + Handed(top, j)
    modifies m`paTop, m`handedOut, m.ram
    ensures r == if m.paBottom <= (top - Used(j + 1)) * 4096 then Ok else Panic
    ensures r == Ok ==> UserProgress(m, kpgdir, l, UserPages(top)[..j + 1], top, Used(j + 1))
    ensures r == Ok ==> m.handedOut == owned + Handed(top, j + 1)
  {
    hide UserProgress, Lookup, UsesSlotOf, Handed, UserPages;
    ghost var p := UserPages(top);
    EachPageIsNew(top, j);
    HandedNext(top, j);
    assert p[..j + 1] == p[..j] + [p[j]];
    assert p[j] == (p[j].0, Leaf(top - Used(j) - 1, flags));
    r := MapFresh(m, kpgdir, l, va, flags, p[..j], p[j].0, top, Used(j));
  }

  lemma EachPageIsNew(top: nat, j: nat)
    requires 8 <= top && j < 5
    ensures var p := UserPages(top);
            && Lookup(p[..j], p[j].0) == None
            && (UsesSlotOf(p[..j], p[j].0 / 1024) <==> 0 < j)
            && |p| == 5 && p[j].0 < 0xC_0000 && p[j].1.flags < 1024
            && ValidLeaf(p[j].1.flags) && p[j].1.ppn == top - Used(j) - 1
  {
    PrefixLookups(top);
  }

  /** The arguments of the five calls. */
  lemma CallArguments(top: nat)
    requires 8 <= top
    ensures var p := UserPages(top);
            && |p| == 5 && p[..0] == [] && p[..5] == p && p[4].0 * 4096 == USER_STACK * 4096 - 4096 &&
                p[4].1.flags == USER_RW
            && p[0].0 * 4096 == USER_START * 4096 && p[1].0 * 4096 == USER_START * 4096 + 4096
            && p[2].0 * 4096 == USER_START * 4096 + 2 * 4096 && p[3].0 * 4096 == USER_START * 4096 + 3 * 4096
            && p[0].1.flags == p[1].1.flags == p[2].1.flags == p[3].1.flags == USER_RWX
  {
  }

  /** The five pages of user text, data and stack. */
  method MapUserPages(m: Memory, kpgdir: nat, l: Layout, ghost top: nat) returns (ok: bool, failed: bool)
    requires 8 <= top && UserProgress(m, kpgdir, l, [], top, 0)
    modifies m`paTop, m`handedOut, m.ram
    ensures !failed
    ensures ok <==> m.paBottom <= (top - 6) * 4096
    ensures ok ==>
              && UserProgress(m, kpgdir, l, UserPages(top), top, 6)
              && m.handedOut == old(m.handedOut) + {top - 1, top - 3, top - 4, top - 5, top - 6}
  {
    CallArguments(top);
    HandedAll(top);
    hide UserProgress, UserPages, Handed;
    ok, failed := false, false;
    ghost var owned := m.handedOut;
    assert owned + {} == owned;
    var va := USER_START * 4096;
    var r := MapUserPage(m, kpgdir, l, va, USER_RWX, 0, top, owned);
    if r == Panic { return; }
    failed := failed || r != Ok;
    r := MapUserPage(m, kpgdir, l, va + 1 * 4096, USER_RWX, 1, top, owned);
    if r == Panic { return; }
    failed := failed || r != Ok;
    r := MapUserPage(m, kpgdir, l, va + 2 * 4096, USER_RWX, 2, top, owned);
    if r == Panic { return; }
    failed := failed || r != Ok;
    r := MapUserPage(m, kpgdir, l, va + 3 * 4096, USER_RWX, 3, top, owned);
    if r == Panic { return; }
    failed := failed || r != Ok;
    r := MapUserPage(m, kpgdir, l, USER_STACK * 4096 - 4096, USER_RW, 4, top, owned);
    if r == Panic { return; }
    ok, failed := true, failed || r != Ok;
  }

  /** The address space in which user mode starts. */
  ghost predicate Running(m: Memory, root: nat, l: Layout, top: nat)
    reads m, m.ram
  {
    && m.Paging(root) && l.Valid() && 8 <= top
    && forall v: nat | v < PAGES ::
         Walk(m.Ram(), root, v) == if UserMap(top, v).Some? then UserMap(top, v) else l.KernelMap(v)
  }

  lemma FinalMap(m: Memory, kpgdir: nat, l: Layout, top: nat)
    requires 8 <= top && UserProgress(m, kpgdir, l, UserPages(top) + FramebufferPages(FRAMEBUFFER_FRAMES), top, 8)
    ensures forall v: nat | v < PAGES ::
              Walk(m.Ram(), kpgdir / 4096, v) == if UserMap(top, v).Some? then UserMap(top, v) else l.KernelMap(v)
  {
    forall v: nat | v < PAGES
      ensures Walk(m.Ram(), kpgdir / 4096, v) == if UserMap(top, v).Some? then UserMap(top, v) else l.KernelMap(v)
    {
      LookupUserPages(top, v);
    }
  }

  // ---- What the finished address space guarantees ----

  /** A page that the kernel alone may use, with these rights. A and D are set, so no access traps to
      have them set. */
  predicate KernelRights(flags: Word, write: bool, execute: bool) {
    V(flags) && R(flags) && W(flags) == write && X(flags) == execute && !U(flags) && A(flags) && D(flags)
  }

  predicate UserRightsAre(flags: Word, execute: bool) {
    V(flags) && R(flags) && W(flags) && X(flags) == execute && U(flags) && A(flags) && D(flags)
  }

  /** After `start`, at byte granularity: RAM is mapped linearly, its text readable and executable, its
      read-only data readable, the rest readable and writable; the MMIO megapage is mapped to itself,
      readable and writable; and nothing else is mapped. */
  lemma KernelTranslation(mem: seq<Word>, root: nat, l: Layout, va: Word)
    requires KernelMapped(mem, root, l)
    ensures l.text * 4096 <= va < l.memoryTop * 4096 ==>
              var t := Translate(mem, root, va);
              && t.Some? && t.value.0 == va - 0x8000_0000
              && KernelRights(t.value.1, va >= l.data * 4096, va < l.rodata * 4096)
    ensures 0xF000_0000 <= va < 0xF040_0000 ==>
              var t := Translate(mem, root, va);
              t.Some? && t.value.0 == va && KernelRights(t.value.1, true, false)
    ensures Translate(mem, root, va).Some? ==>
              || l.text * 4096 <= va < l.memoryTop * 4096
              || 0xF000_0000 <= va < 0xF040_0000
  {
    hide KernelMapped, Walk;
    PageRights(mem, root, l, va / 4096);
  }

  lemma PageRights(mem: seq<Word>, root: nat, l: Layout, v: nat)
    requires KernelMapped(mem, root, l) && v < PAGES
    ensures l.Valid() && |mem| == WORDS && root < FRAMES
    ensures var leaf := Walk(mem, root, v);
            && (l.text <= v < l.memoryTop ==>
                  && leaf.Some? && leaf.value.ppn == v - 0x8_0000 && leaf.value.flags < 1024
                  && KernelRights(leaf.value.flags, v >= l.data, v < l.rodata))
            && (0xF_0000 <= v < 0xF_0400 ==>
                  && leaf.Some? && leaf.value.ppn == v && leaf.value.flags < 1024
                  && KernelRights(leaf.value.flags, true, false))
            && (leaf.Some? ==> l.text <= v < l.memoryTop || 0xF_0000 <= v < 0xF_0400)
  {
  }

  /** The same for the finished address space: user text, data, stack and frame buffer pages are open to
      user mode, readable and writable, and the first four of them executable; the frame buffer is where
      the hardware has it; and the kernel's pages are as before. */
  lemma UserRights(m: Memory, root: nat, l: Layout, top: nat, v: nat)
    requires Running(m, root, l, top) && v < PAGES
    ensures var leaf := Walk(m.Ram(), root, v);
            && (0x1_0000 <= v < 0x1_0004 ==> leaf.Some? && UserRightsAre(leaf.value.flags, true))
            && (v == 0x1_03FF ==> leaf.Some? && UserRightsAre(leaf.value.flags, false))
            && (0x2_0000 <= v < 0x2_0000 + 150 ==>
                  leaf.Some? && UserRightsAre(leaf.value.flags, false) && leaf.value.ppn == 0x4_0C00 + (v - 0x2_0000))
            && (l.text <= v < l.memoryTop ==>
                  && leaf.Some? && leaf.value.ppn == v - 0x8_0000
                  && KernelRights(leaf.value.flags, v >= l.data, v < l.rodata))
            && (0xF_0000 <= v < 0xF_0400 ==>
                  leaf.Some? && leaf.value.ppn == v && KernelRights(leaf.value.flags, true, false))
            && (leaf.Some? ==>
                  || 0x1_0000 <= v < 0x1_0004 || v == 0x1_03FF || 0x2_0000 <= v < 0x2_0000 + 150
                  || l.text <= v < l.memoryTop || 0xF_0000 <= v < 0xF_0400)
  {
  }

  predicate AllocatedPage(v: nat) { USER_START <= v < USER_START + 4 || v == USER_STACK - 1 }

  /** Some user page of the program and some frame buffer page share a frame. */
  ghost predicate FramebufferClash(m: Memory, root: nat)
    reads m, m.ram
    requires |m.Ram()| == WORDS && root < FRAMES
  {
    exists v: nat, w: nat | v < PAGES && w < PAGES && AllocatedPage(v) &&
        FRAMEBUFFER_PAGE <= w < FRAMEBUFFER_PAGE + FRAMEBUFFER_FRAMES ::
      Walk(m.Ram(), root, v) != None && Walk(m.Ram(), root, w) != None
      && Walk(m.Ram(), root, v).value.ppn == Walk(m.Ram(), root, w).value.ppn
  }

  /** The frame buffer is not taken out of the allocator, so it is where the allocator stands
      that decides: the program's frames miss it exactly when they lie wholly above or wholly
      below it. */
  lemma FramebufferClashIff(m: Memory, root: nat, l: Layout, top: nat)
    requires Running(m, root, l, top)
    ensures FramebufferClash(m, root) <==> FRAMEBUFFER_FRAME < top < FRAMEBUFFER_FRAME + FRAMEBUFFER_FRAMES + 6
  {
    if FRAMEBUFFER_FRAME < top < FRAMEBUFFER_FRAME + FRAMEBUFFER_FRAMES + 6 {
      var v := if top - 1 < FRAMEBUFFER_FRAME + FRAMEBUFFER_FRAMES then USER_START else USER_STACK - 1;
      var w := FRAMEBUFFER_PAGE + (UserMap(top, v).value.ppn - FRAMEBUFFER_FRAME);
      assert Walk(m.Ram(), root, v) == UserMap(top, v) && Walk(m.Ram(), root, w) == UserMap(top, w);
    }
  }
}
