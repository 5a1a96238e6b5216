/** xos/src/kernel.c: the page table that `start` and `start_user_program` build. */
module Kernel {
  import opened Common
  import opened Sv32
  import opened Vmm

  const KVA_OFFSET := 0x8000_0000  // KVA_BASE - KPA_BASE
  const MMIO: Word := 0xF000_0000
  const MEGA := 0x40_0000

  // PTE_D | PTE_A | ... | PTE_V
  const KERNEL_RO: Word := 0xC3
  const KERNEL_RW: Word := 0xC7
  const KERNEL_RX: Word := 0xCB
  const USER_RW: Word := 0xD7
  const USER_RWX: Word := 0xDF

  /** The linker's section boundaries, as virtual page numbers (all are page aligned). */
  datatype Layout = Layout(text: nat, rodata: nat, data: nat, imageEnd: nat, memoryTop: nat) {
    /** Sections are ordered, RAM ends on a megapage below the MMIO region, and the boot
        stack and boot directory pages lie between the image and the end of RAM. */
    ghost predicate Valid() {
      && 0xC_0000 <= text <= rodata <= data <= imageEnd <= memoryTop - 2
      && memoryTop % 1024 == 0 && memoryTop <= 0xF_0000
    }

    /** The frame and rights of a RAM page: text RX, rodata RO, everything above RW. */
    function RamLeaf(page: nat): Leaf
      requires 0xC_0000 <= page
    {
      Leaf(page - 0x8_0000, if page < rodata then KERNEL_RX else if page < data then KERNEL_RO else KERNEL_RW)
    }

    /** What `start` should leave mapped. */
    function KernelMap(page: nat): Option<Leaf>
      requires 0xC_0000 <= text
    {
      if text <= page < memoryTop then Some(RamLeaf(page))
      else if 0xF_0000 <= page < 0xF_0400 then Some(Leaf(page, KERNEL_RW))
      else None
    }

    /** The image end rounded up to a megapage: from here on RAM is mapped by megapages. */
    function MegaStart(): nat { (imageEnd + 1023) / 1024 * 1024 }

    /** The page tables that mapping RAM takes: one for each directory slot from the text to there. */
    function Tables(): nat
      requires text <= imageEnd
    {
      MegaStart() / 1024 - text / 1024
    }

    /** Directory slot `i` is in use once the RAM pages below `page` are mapped. */
    predicate SlotUsed(page: nat, i: nat) {
      text < page && text / 1024 <= i && i * 1024 < page
    }

    /** The number of such slots. */
    function Slots(page: nat): nat {
      if page <= text then 0
      else Slots(page - 1) + if SlotUsed(page - 1, (page - 1) / 1024) then 0 else 1
    }
  }

  /** Each directory slot costs one page table: the closed form of `Slots`. */
  lemma SlotsClosedForm(l: Layout, page: nat)
    requires l.text < page
    ensures l.Slots(page) == (page - 1) / 1024 + 1 - l.text / 1024
  {
    if l.text < page - 1 {
      SlotsClosedForm(l, page - 1);
    }
  }

  lemma TablesOfRam(l: Layout)
    requires l.text <= l.imageEnd
    ensures l.Slots(l.MegaStart()) == l.Tables()
  {
    var mega := l.MegaStart();
    assert mega == mega / 1024 * 1024;
    if l.text < mega {
      SlotsClosedForm(l, mega);
    }
  }

  lemma SlotsMonotone(l: Layout, a: nat, b: nat)
    requires a <= b
    ensures l.Slots(a) <= l.Slots(b)
  {
    if a < b {
      SlotsMonotone(l, a, b - 1);
    }
  }

  lemma SlotUsedStep(l: Layout, page: nat, i: nat)
    requires l.text <= page
    ensures l.SlotUsed(page + 1, i) == (i == page / 1024 || l.SlotUsed(page, i))
  {
  }

  /** The RAM pages below `page` are mapped as the layout asks, and nothing else is. */
  ghost predicate Reached(mem: seq<Word>, root: nat, l: Layout, page: nat)
  {
    && |mem| == WORDS && root < FRAMES && l.Valid()
    && (forall v: nat | v < PAGES ::
          Walk(mem, root, v) == if l.text <= v < page then Some(l.RamLeaf(v)) else None)
    && (forall i: nat | i < 1024 :: DirUsed(mem, root, i) == l.SlotUsed(page, i))
  }

  lemma ReachedStep(mem: seq<Word>, mem': seq<Word>, root: nat, l: Layout, page: nat)
    requires Reached(mem, root, l, page) && l.text <= page < PAGES
    requires MapsPage(mem, mem', root, page, l.RamLeaf(page).ppn, l.RamLeaf(page).flags)
    requires UsesSlot(mem, mem', root, page / 1024)
    ensures Reached(mem', root, l, page + 1)
  {
    forall i: nat | i < 1024
      ensures DirUsed(mem', root, i) == l.SlotUsed(page + 1, i)
    {
      SlotUsedStep(l, page, i);
    }
  }

  /** Where `start` stands after mapping the pages below `page`: `budget` is the allocator's
      top before the first table, and each used directory slot has cost one frame. Memory below
      the allocator's top is as in `ram0`. */
  ghost predicate Progress(m: Memory, kpgdir: nat, l: Layout, page: nat, budget: nat, ram0: seq<Word>)
    reads m, m.ram
  {
    && kpgdir % 4096 == 0 && m.Paging(kpgdir / 4096)
    && SameBelow(ram0, m.Ram(), m.paTop / 4096)
    && Reached(m.Ram(), kpgdir / 4096, l, page)
    && m.paTop == budget - 4096 * l.Slots(page)
  }

  /** One iteration of a loop of `start` that maps 4KB pages: only an empty allocator stops it. */
  method MapNext(m: Memory, kpgdir: nat, l: Layout, va: Word, flags: Word, ghost page: nat,
                 ghost budget: nat, ghost ram0: seq<Word>) returns (r: Status)
    requires va == page * 4096 && l.text <= page < l.memoryTop && l.Valid()
    requires flags < 1024 && ValidLeaf(flags) && l.RamLeaf(page).flags == flags
    requires Progress(m, kpgdir, l, page, budget, ram0)
    modifies m`paTop, m`handedOut, m.ram
    ensures m.handedOut == old(m.handedOut)
    ensures r == if m.paBottom <= budget - 4096 * l.Slots(page + 1) then Ok else Panic
    ensures r == Ok ==> Progress(m, kpgdir, l, page + 1, budget, ram0)
  {
    hide WellFormed, TablesAvoid, TablesBelow, Walk;
    ghost var root, before := kpgdir / 4096, m.Ram();
    assert va / 4096 == page && (va - KVA_OFFSET) / 4096 == page - 0x8_0000;
    assert va % 4096 == 0 && (va - KVA_OFFSET) % 4096 == 0 && flags % 1024 == flags;
    r := m.VmMap4k(kpgdir, va, va - KVA_OFFSET, flags);
    if r == Ok {
      SameBelowTransitive(ram0, before, m.Ram(), old(m.paTop) / 4096, m.paTop / 4096);
      ReachedStep(before, m.Ram(), root, l, page);
    }
  }

  lemma SameBelowTransitive(a: seq<Word>, b: seq<Word>, c: seq<Word>, f: nat, f': nat)
    requires SameBelow(a, b, f) && SameBelow(b, c, f') && f' <= f
    ensures SameBelow(a, c, f')
  {
  }

  /** One of the three `while` loops of `start` that map 4KB pages. */
  method MapPages(m: Memory, kpgdir: nat, l: Layout, start: Word, end: nat, flags: Word,
                  ghost first: nat, ghost last: nat, ghost budget: nat, ghost ram0: seq<Word>)
    returns (va: nat, ok: bool, failed: bool)
    requires l.Valid() && l.text <= first <= last <= l.memoryTop && start == first * 4096 && end == last * 4096
    requires flags < 1024 && ValidLeaf(flags)
    requires forall v: nat | first <= v < last :: l.RamLeaf(v).flags == flags
    requires Progress(m, kpgdir, l, first, budget, ram0)
    modifies m`paTop, m`handedOut, m.ram
    ensures !failed
    ensures m.handedOut == old(m.handedOut)
    ensures ok <==> m.paBottom <= budget - 4096 * l.Slots(last)
    ensures ok ==> va == end && Progress(m, kpgdir, l, last, budget, ram0)
  {
    hide WellFormed, TablesAvoid, TablesBelow, Reached, Walk, Layout.Slots;
    va, ok, failed := start, true, false;
    ghost var page := first;
    while va < end
      invariant va == page * 4096 && first <= page <= last
      invariant m.handedOut == old(m.handedOut)
      invariant Progress(m, kpgdir, l, page, budget, ram0)
      invariant ok && !failed
    {
      SlotsMonotone(l, page + 1, last);
      var r := MapNext(m, kpgdir, l, va, flags, page, budget, ram0);
      if r == Panic {
        ok := false;
        return;
      }
      failed := failed || r != Ok;
      va, page := va + 4096, page + 1;
    }
    assert page == last;
  }

  /** The slot behind a megapage boundary is still free, and the pages it covers are the next 1024. */
  lemma ReachedMega(mem: seq<Word>, mem': seq<Word>, root: nat, l: Layout, slot: nat)
    requires Reached(mem, root, l, slot * 1024) && l.data <= slot * 1024 < l.memoryTop
    requires MapsMegapage(mem, mem', root, slot, slot * 1024 - 0x8_0000, KERNEL_RW)
    requires UsesSlot(mem, mem', root, slot)
    ensures Reached(mem', root, l, (slot + 1) * 1024)
  {
    forall v: nat | v < PAGES
      ensures Walk(mem', root, v) == if l.text <= v < (slot + 1) * 1024 then Some(l.RamLeaf(v)) else None
    {
      assert v == v / 1024 * 1024 + v % 1024;
    }
  }

  /** One iteration of the fourth loop of `start`, which never needs a table. */
  method MapMega(m: Memory, kpgdir: nat, l: Layout, va: Word, ghost slot: nat, ghost ram0: seq<Word>)
    returns (r: Status)
    requires l.Valid() && l.data <= slot * 1024 < l.memoryTop && va == slot * MEGA
    requires ProgressMega(m, kpgdir, l, slot * 1024, ram0)
    modifies m.ram
    ensures r == Ok
    ensures ProgressMega(m, kpgdir, l, (slot + 1) * 1024, ram0)
  {
    hide WellFormed, TablesAvoid, TablesBelow, Walk;
    ghost var root, before := kpgdir / 4096, m.Ram();
    assert (va - KVA_OFFSET) / 4096 == slot * 1024 - 0x8_0000 && (va - KVA_OFFSET) % MEGA == 0;
    assert va / MEGA == slot && va % MEGA == 0;
    r := m.VmMap4m(kpgdir, va, va - KVA_OFFSET, KERNEL_RW);
    assert !l.SlotUsed(slot * 1024, slot);
    SameBelowTransitive(ram0, before, m.Ram(), m.paTop / 4096, m.paTop / 4096);
    ReachedMega(before, m.Ram(), root, l, slot);
  }

  ghost predicate ProgressMega(m: Memory, kpgdir: nat, l: Layout, page: nat, ram0: seq<Word>)
    reads m, m.ram
  {
    && kpgdir % 4096 == 0 && m.Paging(kpgdir / 4096)
    && Reached(m.Ram(), kpgdir / 4096, l, page)
    && SameBelow(ram0, m.Ram(), m.paTop / 4096)
  }

  /** The fourth loop of `start`: the rest of RAM by megapages. */
  method MapMegapages(m: Memory, kpgdir: nat, l: Layout, start: Word, ghost first: nat, ghost ram0: seq<Word>)
    returns (va: nat, failed: bool)
    requires l.Valid() && l.data <= first * 1024 <= l.memoryTop && start == first * MEGA
    requires ProgressMega(m, kpgdir, l, first * 1024, ram0)
    modifies m.ram
    ensures !failed
    ensures ProgressMega(m, kpgdir, l, l.memoryTop, ram0)
  {
    hide WellFormed, TablesAvoid, TablesBelow, Reached, Walk, Layout.Slots;
    va, failed := start, false;
    ghost var slot := first;
    while va < l.memoryTop * 4096
      invariant va == slot * MEGA && l.data <= slot * 1024 <= l.memoryTop
      invariant ProgressMega(m, kpgdir, l, slot * 1024, ram0)
      invariant !failed
    {
      var r := MapMega(m, kpgdir, l, va, slot, ram0);
      failed := failed || r != Ok;
      va, slot := va + MEGA, slot + 1;
    }
  }

  /** `kpgdir` translates every page as the layout asks, and nothing else. */
  ghost predicate KernelMapped(mem: seq<Word>, root: nat, l: Layout)
  {
    && |mem| == WORDS && root < FRAMES && l.Valid()
    && (forall v: nat | v < PAGES :: Walk(mem, root, v) == l.KernelMap(v))
    && (forall i: nat | i < 1024 :: DirUsed(mem, root, i) == (i == 960 || l.SlotUsed(l.memoryTop, i)))
  }

  lemma AddMmio(mem: seq<Word>, mem': seq<Word>, root: nat, l: Layout)
    requires Reached(mem, root, l, l.memoryTop)
    requires MapsMegapage(mem, mem', root, 960, 0xF_0000, KERNEL_RW)
    requires UsesSlot(mem, mem', root, 960)
    ensures KernelMapped(mem', root, l)
  {
    forall v: nat | v < PAGES
      ensures Walk(mem', root, v) == l.KernelMap(v)
    {
      assert v / 1024 == 960 <==> 0xF_0000 <= v < 0xF_0400;
      assert v / 1024 == 960 ==> v % 1024 == v - 0xF_0000;
    }
  }

  /** An all-zero frame is an empty directory. */
  lemma EmptyDirectory(mem: seq<Word>, root: nat, l: Layout)
    requires |mem| == WORDS && root < FRAMES && l.Valid()
    requires forall i: nat | i < 1024 :: Entry(mem, root, i) == 0
    ensures WellFormed(mem, root, root) && Reached(mem, root, l, l.text)
    ensures forall frames :: TablesAvoid(mem, root, frames)
    ensures forall hi: nat :: TablesBelow(mem, root, hi)
  {
    assert forall v: nat | v < PAGES :: Walk(mem, root, v) == None;
    assert forall i: nat | i < 1024 :: !DirUsed(mem, root, i) && !HasTable(mem, root, i);
  }

  lemma EmptyDirectoryAt(m: Memory, root: nat, l: Layout, ram0: seq<Word>)
    requires m.Valid() && l.Valid() && m.paTop == root * 4096 && root < FRAMES
    requires forall k | m.paTop / 4 <= k < m.paTop / 4 + 1024 :: m.ram[k] == 0
    requires SameBelow(ram0, m.Ram(), m.paTop / 4096)
    ensures Progress(m, root * 4096, l, l.text, m.paTop, ram0)
  {
    assert m.paTop / 4096 == root;
    assert forall i: nat | i < 1024 :: Entry(m.Ram(), root, i) == m.ram[m.paTop / 4 + i];
    EmptyDirectory(m.Ram(), root, l);
  }

  /** The four loops of `start`. */
  method MapRam(m: Memory, kpgdir: nat, l: Layout, ghost ram0: seq<Word>) returns (ok: bool, failed: bool)
    requires l.Valid() && m.paTop == kpgdir
    requires Progress(m, kpgdir, l, l.text, m.paTop, ram0)
    modifies m`paTop, m`handedOut, m.ram
    ensures !failed
    ensures m.handedOut == old(m.handedOut)
    ensures ok <==> m.paBottom <= kpgdir - 4096 * l.Slots(l.MegaStart())
    ensures ok ==> ProgressMega(m, kpgdir, l, l.memoryTop, ram0)
    ensures ok ==> m.paTop == kpgdir - 4096 * l.Slots(l.MegaStart())
  {
    hide WellFormed, TablesAvoid, TablesBelow, Reached, Walk, Layout.Slots;
    ghost var budget := m.paTop;
    var mega := l.MegaStart();
    SlotsMonotone(l, l.rodata, mega);
    SlotsMonotone(l, l.data, mega);
    var va, bad;
    va, ok, failed := MapPages(m, kpgdir, l, l.text * 4096, l.rodata * 4096, KERNEL_RX, l.text, l.rodata, budget, ram0);
    if !ok {
      return;
    }
    va, ok, bad := MapPages(m, kpgdir, l, va, l.data * 4096, KERNEL_RO, l.rodata, l.data, budget, ram0);
    failed := failed || bad;
    if !ok {
      return;
    }
    va, ok, bad := MapPages(m, kpgdir, l, va, mega * 4096, KERNEL_RW, l.data, mega, budget, ram0);
    failed := failed || bad;
    if !ok {
      return;
    }
    va, bad := MapMegapages(m, kpgdir, l, va, mega / 1024, ram0);
    failed := failed || bad;
  }

  /** kpgdir = kpage_alloc_z(): the frame below `top` becomes an empty directory. */
  method NewDirectory(m: Memory, l: Layout, ghost top: nat) returns (kpgdir: Option<nat>)
    requires l.Valid() && m.Valid() && m.paTop == top * 4096 && m.handedOut == {}
    modifies m`paTop, m`handedOut, m.ram
    ensures kpgdir.None? <==> old(m.paTop) == m.paBottom
    ensures kpgdir.Some? ==>
              && kpgdir.value == (top - 1) * 4096 == m.paTop && m.handedOut == {top - 1}
              && l.Slots(l.text) == 0
              && Progress(m, kpgdir.value, l, l.text, m.paTop, old(m.Ram()))
  {
    kpgdir := m.PpageAllocZ();
    if kpgdir.Some? {
      assert m.paTop == (top - 1) * 4096 && m.paTop / 4096 == top - 1;
      EmptyDirectoryAt(m, top - 1, l, old(m.Ram()));
    }
  }

  /** The last map call of `start`. */
  method MapMmio(m: Memory, kpgdir: nat, l: Layout, ghost ram0: seq<Word>) returns (failed: bool)
    requires ProgressMega(m, kpgdir, l, l.memoryTop, ram0)
    modifies m.ram
    ensures !failed
    ensures m.Paging(kpgdir / 4096) && KernelMapped(m.Ram(), kpgdir / 4096, l)
    ensures SameBelow(ram0, m.Ram(), m.paTop / 4096)
  {
    ghost var before := m.Ram();
    var r := m.VmMap4m(kpgdir, MMIO, MMIO, KERNEL_RW);
    failed := r != Ok;
    AddMmio(before, m.Ram(), kpgdir / 4096, l);
    SameBelowTransitive(ram0, before, m.Ram(), m.paTop / 4096, m.paTop / 4096);
  }

  /** All map calls of `start`. */
  method MapKernel(m: Memory, kpgdir: nat, l: Layout, ghost ram0: seq<Word>) returns (ok: bool, failed: bool)
    requires l.Valid() && m.paTop == kpgdir
    requires Progress(m, kpgdir, l, l.text, m.paTop, ram0)
    modifies m`paTop, m`handedOut, m.ram
    ensures !failed
    ensures m.handedOut == old(m.handedOut)
    ensures ok <==> m.paBottom <= kpgdir - 4096 * l.Slots(l.MegaStart())
    ensures ok ==> m.paTop == kpgdir - 4096 * l.Slots(l.MegaStart())
    ensures ok ==> m.Paging(kpgdir / 4096) && KernelMapped(m.Ram(), kpgdir / 4096, l)
    ensures ok ==> SameBelow(ram0, m.Ram(), m.paTop / 4096)
  {
    hide WellFormed, TablesAvoid, TablesBelow, Reached, KernelMapped, Walk, SameBelow, Layout.Slots, Progress;
    ok, failed := MapRam(m, kpgdir, l, ram0);
    if ok {
      var bad := MapMmio(m, kpgdir, l, ram0);
      failed := failed || bad;
    }
  }

  /** `start` up to the write of satp. It can only fail by running out of pages, which is a
      panic (None here), and exactly when the free pages between image and boot directory
      are fewer than the directory and the tables need. `failed` collects the statuses that
      the C code ignores. */
  method Start(ram: array<Word>, l: Layout) returns (m: Memory, kpgdir: Option<nat>, failed: bool)
    requires ram.Length == WORDS && l.Valid()
    modifies ram
    ensures m.ram == ram && fresh(m)
    ensures !failed
    ensures kpgdir.Some? <==> 1 + l.Tables() <= l.memoryTop - 2 - l.imageEnd
    ensures kpgdir.Some? ==>
              var root := l.memoryTop - 0x8_0000 - 3;
              && kpgdir.value == root * 4096
              && m.Paging(root) && KernelMapped(m.Ram(), root, l)
              && m.handedOut == {root}
              && m.paTop == (root - l.Tables()) * 4096 && m.paStart == (root + 1) * 4096
              && m.paBottom == (l.imageEnd - 0x8_0000) * 4096
              && SameBelow(old(ram[..]), ram[..], m.paTop / 4096)
  {
    hide WellFormed, TablesAvoid, TablesBelow, Reached, KernelMapped, Walk, SameBelow, Progress, Layout.Slots,
        Layout.Tables;
    SlotsMonotone(l, l.text, l.MegaStart());
    TablesOfRam(l);
    m := new Memory(ram, l.imageEnd * 4096 - KVA_OFFSET, l.memoryTop * 4096 - KVA_OFFSET - 2 * 4096);
    kpgdir := NewDirectory(m, l, l.memoryTop - 0x8_0000 - 2);
    if kpgdir.None? {
      return m, None, false;
    }
    var ok;
    ok, failed := MapKernel(m, kpgdir.value, l, old(ram[..]));
    if !ok {
      kpgdir := None;
    }
  }
}
