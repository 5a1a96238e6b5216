/** The Sv32 address translation of the RISC-V Privileged Architecture, section 4.3.2,
    over a flat physical memory of 2^30 little-endian words. A page, a page table and a
    page directory are all just frames of that memory, named by their frame number. */
module Sv32 {
  import opened Common

  const WORDS := 0x4000_0000
  const FRAMES := 0x10_0000  // 2^20 frames of 4KB
  const PAGES := 0x10_0000   // 2^20 virtual pages of 4KB

  // Page table entry bits.
  predicate V(pte: Word) { pte % 2 == 1 }
  predicate R(pte: Word) { pte / 2 % 2 == 1 }
  predicate W(pte: Word) { pte / 4 % 2 == 1 }
  predicate X(pte: Word) { pte / 8 % 2 == 1 }
  predicate U(pte: Word) { pte / 16 % 2 == 1 }
  predicate G(pte: Word) { pte / 32 % 2 == 1 }
  predicate A(pte: Word) { pte / 64 % 2 == 1 }
  predicate D(pte: Word) { pte / 128 % 2 == 1 }

  function Ppn(pte: Word): nat { pte / 1024 }
  function Flags(pte: Word): nat { pte % 1024 }

  predicate Pointer(pte: Word) { V(pte) && !R(pte) && !W(pte) && !X(pte) }

  /** A leaf entry that the walk accepts: valid, readable or executable, and not the
      reserved combination "writable but not readable". */
  predicate ValidLeaf(pte: Word) { V(pte) && (R(pte) || X(pte)) && (W(pte) ==> R(pte)) }

  function Bit(b: bool): nat { if b then 1 else 0 }

  /** The bits are where section 4.3.1 of the RISC-V Privileged Architecture has them. */
  lemma BitsOfEntry(pte: Word)
    ensures pte == Bit(V(pte)) + 2 * Bit(R(pte)) + 4 * Bit(W(pte)) + 8 * Bit(X(pte)) + 16 * Bit(U(pte)) +
                32 * Bit(G(pte)) + 64 * Bit(A(pte)) + 128 * Bit(D(pte)) + 256 * (pte / 256)
  {
    hide Bit, V, R, W, X, U, G, A, D;
    LowHalf(pte);
    HighHalf(pte);
  }

  lemma LowHalf(pte: Word)
    ensures pte == Bit(V(pte)) + 2 * Bit(R(pte)) + 4 * Bit(W(pte)) + 8 * Bit(X(pte)) + 16 * (pte / 16)
  {
    Half(pte / 8);
    assert pte / 16 == pte / 8 / 2;
    assert pte / 8 == pte / 4 / 2 && pte / 4 == pte / 2 / 2;
  }

  lemma HighHalf(pte: Word)
    ensures pte / 16 == Bit(U(pte)) + 2 * Bit(G(pte)) + 4 * Bit(A(pte)) + 8 * Bit(D(pte)) + 16 * (pte / 256)
  {
    var q := pte / 16;
    assert pte / 32 == q / 2 && pte / 64 == q / 4 && pte / 128 == q / 8 && pte / 256 == q / 16;
    LowHalf(q);
  }

  lemma Half(n: nat)
    ensures n == 2 * (n / 2) + Bit(n % 2 == 1)
  {
  }

  /** What a virtual page maps to. */
  datatype Leaf = Leaf(ppn: nat, flags: nat)

  function Entry(mem: seq<Word>, frame: nat, i: nat): Word
    requires |mem| == WORDS && frame < FRAMES && i < 1024
  {
    mem[frame * 1024 + i]
  }

  /** The two-level walk for virtual page `vpn`; None is a page (or access) fault. */
  function Walk(mem: seq<Word>, root: nat, vpn: nat): Option<Leaf>
    requires |mem| == WORDS && root < FRAMES && vpn < PAGES
  {
    var e := Entry(mem, root, vpn / 1024);
    if !V(e) || (!R(e) && W(e)) then None
    else if R(e) || X(e) then
      if Ppn(e) % 1024 != 0 then None else Some(Leaf(Ppn(e) + vpn % 1024, Flags(e)))
    else if Ppn(e) >= FRAMES then None
    else
      var p := Entry(mem, Ppn(e), vpn % 1024);
      if ValidLeaf(p) then Some(Leaf(Ppn(p), Flags(p))) else None
  }

  /** The physical address and flags of a virtual address. */
  function Translate(mem: seq<Word>, root: nat, va: Word): Option<(nat, nat)>
    requires |mem| == WORDS && root < FRAMES
  {
    match Walk(mem, root, va / 4096)
    case None => None
    case Some(l) => Some((l.ppn * 4096 + va % 4096, l.flags))
  }

  predicate DirUsed(mem: seq<Word>, root: nat, i: nat)
    requires |mem| == WORDS && root < FRAMES && i < 1024
  {
    V(Entry(mem, root, i))
  }

  predicate HasTable(mem: seq<Word>, root: nat, i: nat)
    requires |mem| == WORDS && root < FRAMES && i < 1024
  {
    Pointer(Entry(mem, root, i))
  }

  function TableOf(mem: seq<Word>, root: nat, i: nat): nat
    requires |mem| == WORDS && root < FRAMES && i < 1024
  {
    Ppn(Entry(mem, root, i))
  }

  /** A directory entry is empty, or an aligned leaf, or points at a table frame that was
      allocated (so lies at or above `top`), is not the directory, and holds only leaves. */
  ghost predicate GoodDirEntry(mem: seq<Word>, root: nat, top: nat, i: nat)
    requires |mem| == WORDS && root < FRAMES && i < 1024
  {
    DirUsed(mem, root, i) ==>
      if HasTable(mem, root, i) then
        var t := TableOf(mem, root, i);
        && top <= t < FRAMES
        && t != root
        && forall j: nat | j < 1024 && V(Entry(mem, t, j)) :: ValidLeaf(Entry(mem, t, j))
      else
        ValidLeaf(Entry(mem, root, i)) && Ppn(Entry(mem, root, i)) % 1024 == 0
  }

  /** Directory and tables are pairwise distinct frames at or above `top`. */
  ghost predicate WellFormed(mem: seq<Word>, root: nat, top: nat)
  {
    && |mem| == WORDS
    && top <= root < FRAMES
    && (forall i: nat | i < 1024 :: GoodDirEntry(mem, root, top, i))
    && (forall i: nat, k: nat | i < k < 1024 && HasTable(mem, root, i) && HasTable(mem, root, k) ::
          TableOf(mem, root, i) != TableOf(mem, root, k))
  }

  /** `mem'` translates page `vpn` to the given frame and every other page as `mem` does. */
  ghost predicate MapsPage(mem: seq<Word>, mem': seq<Word>, root: nat, vpn: nat, ppn: nat, flags: nat)
  {
    && |mem| == |mem'| == WORDS && root < FRAMES
    && forall v: nat | v < PAGES ::
         Walk(mem', root, v) == if v == vpn then Some(Leaf(ppn, flags)) else Walk(mem, root, v)
  }

  /** `mem'` translates the 1024 pages behind slot `i` to consecutive frames from `ppn`. */
  ghost predicate MapsMegapage(mem: seq<Word>, mem': seq<Word>, root: nat, i: nat, ppn: nat, flags: nat)
  {
    && |mem| == |mem'| == WORDS && root < FRAMES
    && forall v: nat | v < PAGES ::
         Walk(mem', root, v) == if v / 1024 == i then Some(Leaf(ppn + v % 1024, flags)) else Walk(mem, root, v)
  }

  ghost predicate SameWalk(mem: seq<Word>, mem': seq<Word>, root: nat)
  {
    && |mem| == |mem'| == WORDS && root < FRAMES
    && forall v: nat | v < PAGES :: Walk(mem', root, v) == Walk(mem, root, v)
  }

  /** Slot `i` of the directory is in use in `mem'`; every other slot is as in `mem`. */
  ghost predicate UsesSlot(mem: seq<Word>, mem': seq<Word>, root: nat, i: nat)
  {
    && |mem| == |mem'| == WORDS && root < FRAMES
    && forall k: nat | k < 1024 :: DirUsed(mem', root, k) == (k == i || DirUsed(mem, root, k))
  }

  ghost predicate SameBelow(mem: seq<Word>, mem': seq<Word>, frame: nat)
  {
    && |mem| == |mem'| == WORDS
    && forall k | 0 <= k < frame * 1024 && k < WORDS :: mem'[k] == mem[k]
  }

  ghost predicate SameTables(mem: seq<Word>, mem': seq<Word>, root: nat)
  {
    && |mem| == |mem'| == WORDS && root < FRAMES
    && forall i: nat | i < 1024 && HasTable(mem', root, i) ::
         HasTable(mem, root, i) && TableOf(mem', root, i) == TableOf(mem, root, i)
  }

  /** None of the directory's tables sits in one of `frames`. */
  ghost predicate TablesAvoid(mem: seq<Word>, root: nat, frames: set<nat>)
  {
    && |mem| == WORDS && root < FRAMES
    && forall i: nat | i < 1024 && HasTable(mem, root, i) :: TableOf(mem, root, i) !in frames
  }

  /** All of the directory's tables are frames below `hi`. */
  ghost predicate TablesBelow(mem: seq<Word>, root: nat, hi: nat)
  {
    && |mem| == WORDS && root < FRAMES
    && forall i: nat | i < 1024 && HasTable(mem, root, i) :: TableOf(mem, root, i) < hi
  }

  /** The allocator may move its top down. */
  lemma LowerTop(mem: seq<Word>, root: nat, top: nat, top': nat)
    requires WellFormed(mem, root, top) && top' <= top
    ensures WellFormed(mem, root, top')
  {
    forall i: nat | i < 1024
      ensures GoodDirEntry(mem, root, top', i)
    {
      assert GoodDirEntry(mem, root, top, i);
    }
  }

  /** Frames below `top` (and everything else outside the directory and its tables) do not
      take part in the translation. */
  lemma WalkDependsOnlyOnTables(mem: seq<Word>, mem': seq<Word>, root: nat, top: nat)
    requires WellFormed(mem, root, top) && |mem'| == WORDS
    requires forall k | top * 1024 <= k < WORDS :: mem'[k] == mem[k]
    ensures WellFormed(mem', root, top)
    ensures SameWalk(mem, mem', root)
    ensures forall i: nat | i < 1024 :: Entry(mem', root, i) == Entry(mem, root, i)
    ensures forall frames :: TablesAvoid(mem, root, frames) ==> TablesAvoid(mem', root, frames)
    ensures forall hi: nat :: TablesBelow(mem, root, hi) ==> TablesBelow(mem', root, hi)
  {
    assert forall f: nat, i: nat | top <= f < FRAMES && i < 1024 :: Entry(mem', f, i) == Entry(mem, f, i);
    forall i: nat | i < 1024
      ensures GoodDirEntry(mem', root, top, i)
    {
      assert GoodDirEntry(mem, root, top, i);
    }
    forall a: nat, b: nat | a < b < 1024 && HasTable(mem', root, a) && HasTable(mem', root, b)
      ensures TableOf(mem', root, a) != TableOf(mem', root, b)
    {
      assert GoodDirEntry(mem, root, top, a) && GoodDirEntry(mem, root, top, b);
    }
    forall frames | TablesAvoid(mem, root, frames)
      ensures TablesAvoid(mem', root, frames)
    {
      assert forall i: nat | i < 1024 :: HasTable(mem', root, i) == HasTable(mem, root, i);
    }
    forall hi: nat | TablesBelow(mem, root, hi)
      ensures TablesBelow(mem', root, hi)
    {
      assert forall i: nat | i < 1024 :: HasTable(mem', root, i) == HasTable(mem, root, i);
    }
    forall vpn: nat | vpn < PAGES
      ensures Walk(mem', root, vpn) == Walk(mem, root, vpn)
    {
      assert GoodDirEntry(mem, root, top, vpn / 1024);
    }
  }

  /** Handing the frame below `top` to a caller disturbs neither the translation nor the
      separation of table frames from callers' frames. */
  lemma HandOutFrame(mem: seq<Word>, mem': seq<Word>, root: nat, top: nat, frames: set<nat>)
    requires WellFormed(mem, root, top) && |mem'| == WORDS && 0 < top
    requires forall k | top * 1024 <= k < WORDS :: mem'[k] == mem[k]
    requires TablesAvoid(mem, root, frames)
    ensures WellFormed(mem', root, top - 1)
    ensures SameWalk(mem, mem', root)
    ensures forall i: nat | i < 1024 :: DirUsed(mem', root, i) == DirUsed(mem, root, i)
    ensures TablesAvoid(mem', root, frames + {top - 1})
    ensures forall hi: nat :: TablesBelow(mem, root, hi) ==> TablesBelow(mem', root, hi)
  {
    WalkDependsOnlyOnTables(mem, mem', root, top);
    LowerTop(mem', root, top, top - 1);
    forall i: nat | i < 1024 && HasTable(mem', root, i)
      ensures TableOf(mem', root, i) !in frames + {top - 1}
    {
      assert HasTable(mem, root, i);
      assert GoodDirEntry(mem', root, top, i);
    }
  }

  /** Writing into a frame that is neither the directory nor a table disturbs nothing. */
  lemma WriteOutsideTables(mem: seq<Word>, mem': seq<Word>, root: nat, top: nat, f: nat)
    requires WellFormed(mem, root, top) && |mem'| == WORDS && f < FRAMES && f != root && TablesAvoid(mem, root, {f})
    requires forall k | 0 <= k < WORDS && !(f * 1024 <= k < f * 1024 + 1024) :: mem'[k] == mem[k]
    ensures WellFormed(mem', root, top) && SameWalk(mem, mem', root)
    ensures forall i: nat | i < 1024 :: DirUsed(mem', root, i) == DirUsed(mem, root, i)
    ensures forall frames :: TablesAvoid(mem, root, frames) ==> TablesAvoid(mem', root, frames)
    ensures forall hi: nat :: TablesBelow(mem, root, hi) ==> TablesBelow(mem', root, hi)
  {
    assert forall g: nat, i: nat | g < FRAMES && g != f && i < 1024 :: Entry(mem', g, i) == Entry(mem, g, i);
    assert forall i: nat | i < 1024 :: HasTable(mem', root, i) == HasTable(mem, root, i);
    forall i: nat | i < 1024
      ensures GoodDirEntry(mem', root, top, i)
    {
      assert GoodDirEntry(mem, root, top, i);
    }
    forall a: nat, b: nat | a < b < 1024 && HasTable(mem', root, a) && HasTable(mem', root, b)
      ensures TableOf(mem', root, a) != TableOf(mem', root, b)
    {
      assert HasTable(mem, root, a) && HasTable(mem, root, b);
    }
    forall v: nat | v < PAGES
      ensures Walk(mem', root, v) == Walk(mem, root, v)
    {
      assert GoodDirEntry(mem, root, top, v / 1024);
    }
  }

  /** An entry built from a frame number and flag bits decodes to exactly these. */
  lemma PteRoundTrip(ppn: nat, flags: nat)
    requires ppn < 0x40_0000 && flags < 1024
    ensures ppn * 1024 + flags < 0x1_0000_0000
    ensures var pte: Word := ppn * 1024 + flags;
            && Ppn(pte) == ppn && Flags(pte) == flags
            && V(pte) == V(flags) && R(pte) == R(flags) && W(pte) == W(flags) && X(pte) == X(flags)
            && U(pte) == U(flags)
  {
    assert ppn * 1024 + flags == 2 * (ppn * 512 + flags / 2) + flags % 2;
    LowBit(ppn * 256, flags / 2);
    LowBit(ppn * 128, flags / 4);
    LowBit(ppn * 64, flags / 8);
    LowBit(ppn * 32, flags / 16);
  }

  lemma LowBit(a: nat, b: nat)
    ensures (2 * a + b) % 2 == b % 2 && (2 * a + b) / 2 == a + b / 2
  {
  }

  /** Writing one leaf into a fresh slot of an existing table maps exactly that page. */
  lemma MapInTable(mem: seq<Word>, root: nat, top: nat, vpn: nat, ppn: nat, flags: nat)
    requires WellFormed(mem, root, top) && vpn < PAGES && ppn < FRAMES && flags < 1024 && ValidLeaf(flags)
    requires HasTable(mem, root, vpn / 1024)
    ensures top <= TableOf(mem, root, vpn / 1024) < FRAMES
    ensures var k := TableOf(mem, root, vpn / 1024) * 1024 + vpn % 1024;
            var mem' := mem[k := ppn * 1024 + flags];
            && WellFormed(mem', root, top)
            && MapsPage(mem, mem', root, vpn, ppn, flags)
            && UsesSlot(mem, mem', root, vpn / 1024)
            && SameTables(mem, mem', root)
            && SameBelow(mem, mem', top)
  {
    var t := TableOf(mem, root, vpn / 1024);
    var j := vpn % 1024;
    assert GoodDirEntry(mem, root, top, vpn / 1024);
    PteRoundTrip(ppn, flags);
    var pte: Word := ppn * 1024 + flags;
    var mem' := mem[t * 1024 + j := pte];
    EntryUpdate(mem, mem', t, j, pte);
    forall i: nat | i < 1024
      ensures GoodDirEntry(mem', root, top, i)
    {
      assert GoodDirEntry(mem, root, top, i);
    }
    forall a: nat, b: nat | a < b < 1024 && HasTable(mem', root, a) && HasTable(mem', root, b)
      ensures TableOf(mem', root, a) != TableOf(mem', root, b)
    {
      assert GoodDirEntry(mem, root, top, a) && GoodDirEntry(mem, root, top, b);
    }
    forall v: nat | v < PAGES
      ensures Walk(mem', root, v) == if v == vpn then Some(Leaf(ppn, flags)) else Walk(mem, root, v)
    {
      assert GoodDirEntry(mem, root, top, v / 1024);
      assert v == v / 1024 * 1024 + v % 1024;
    }
  }

  /** With flags that are no leaf the same store maps nothing: the page still faults. */
  lemma StoreNoLeaf(mem: seq<Word>, root: nat, top: nat, vpn: nat, ppn: nat, flags: nat)
    requires WellFormed(mem, root, top) && vpn < PAGES && ppn < FRAMES && flags < 1024 && !ValidLeaf(flags)
    requires HasTable(mem, root, vpn / 1024) && Walk(mem, root, vpn).None?
    ensures top <= TableOf(mem, root, vpn / 1024) < FRAMES
    ensures var k := TableOf(mem, root, vpn / 1024) * 1024 + vpn % 1024;
            var mem' := mem[k := ppn * 1024 + flags];
            && SameWalk(mem, mem', root) && SameBelow(mem, mem', top)
            && UsesSlot(mem, mem', root, vpn / 1024) && SameTables(mem, mem', root)
  {
    var t := TableOf(mem, root, vpn / 1024);
    var j := vpn % 1024;
    assert GoodDirEntry(mem, root, top, vpn / 1024);
    PteRoundTrip(ppn, flags);
    var pte: Word := ppn * 1024 + flags;
    var mem' := mem[t * 1024 + j := pte];
    EntryUpdate(mem, mem', t, j, pte);
    forall v: nat | v < PAGES
      ensures Walk(mem', root, v) == Walk(mem, root, v)
    {
      assert GoodDirEntry(mem, root, top, v / 1024);
      assert v == v / 1024 * 1024 + v % 1024;
    }
  }

  /** And an entry that is not even valid leaves the tables as good as they were. */
  lemma StoreInvalidLeaf(mem: seq<Word>, root: nat, top: nat, vpn: nat, ppn: nat, flags: nat)
    requires WellFormed(mem, root, top) && vpn < PAGES && ppn < FRAMES && flags < 1024 && !V(flags)
    requires HasTable(mem, root, vpn / 1024)
    ensures top <= TableOf(mem, root, vpn / 1024) < FRAMES
    ensures WellFormed(mem[TableOf(mem, root, vpn / 1024) * 1024 + vpn % 1024 := ppn * 1024 + flags], root, top)
  {
    var t := TableOf(mem, root, vpn / 1024);
    var j := vpn % 1024;
    assert GoodDirEntry(mem, root, top, vpn / 1024);
    PteRoundTrip(ppn, flags);
    var pte: Word := ppn * 1024 + flags;
    var mem' := mem[t * 1024 + j := pte];
    EntryUpdate(mem, mem', t, j, pte);
    forall i: nat | i < 1024
      ensures GoodDirEntry(mem', root, top, i)
    {
      assert GoodDirEntry(mem, root, top, i);
    }
    forall a: nat, b: nat | a < b < 1024 && HasTable(mem', root, a) && HasTable(mem', root, b)
      ensures TableOf(mem', root, a) != TableOf(mem', root, b)
    {
      assert HasTable(mem, root, a) && HasTable(mem, root, b);
    }
  }

  /** Nor does a megapage entry, unless its flags make it the pointer to a page table: then the
      frame given is taken for a table. */
  lemma StoreNoMegapage(mem: seq<Word>, root: nat, top: nat, i: nat, ppn: nat, flags: nat)
    requires WellFormed(mem, root, top) && i < 1024 && ppn < FRAMES && flags < 1024 && !ValidLeaf(flags)
    requires !DirUsed(mem, root, i)
    ensures var mem' := mem[root * 1024 + i := ppn * 1024 + flags];
            && SameBelow(mem, mem', top)
            && if Pointer(flags) then HasTable(mem', root, i) && TableOf(mem', root, i) == ppn
                else SameWalk(mem, mem', root)
  {
    PteRoundTrip(ppn, flags);
    var pte: Word := ppn * 1024 + flags;
    var mem' := mem[root * 1024 + i := pte];
    EntryUpdate(mem, mem', root, i, pte);
    if !Pointer(flags) {
      forall v: nat | v < PAGES
        ensures Walk(mem', root, v) == Walk(mem, root, v)
      {
        assert GoodDirEntry(mem, root, top, v / 1024);
        if HasTable(mem, root, v / 1024) {
          TablesAreElsewhere(mem, root, top, v / 1024);
        }
      }
    }
  }

  lemma TablesAreElsewhere(mem: seq<Word>, root: nat, top: nat, k: nat)
    requires WellFormed(mem, root, top) && k < 1024 && HasTable(mem, root, k)
    ensures TableOf(mem, root, k) != root
  {
    assert GoodDirEntry(mem, root, top, k);
  }

  /** An entry that is not valid leaves the directory as good as it was. */
  lemma StoreInvalid(mem: seq<Word>, root: nat, top: nat, i: nat, ppn: nat, flags: nat)
    requires WellFormed(mem, root, top) && i < 1024 && ppn < FRAMES && flags < 1024 && !V(flags)
    requires !DirUsed(mem, root, i)
    ensures var mem' := mem[root * 1024 + i := ppn * 1024 + flags];
            WellFormed(mem', root, top) && SameTables(mem, mem', root)
  {
    PteRoundTrip(ppn, flags);
    var pte: Word := ppn * 1024 + flags;
    var mem' := mem[root * 1024 + i := pte];
    EntryUpdate(mem, mem', root, i, pte);
    forall k: nat | k < 1024
      ensures GoodDirEntry(mem', root, top, k)
    {
      assert GoodDirEntry(mem, root, top, k);
    }
    forall a: nat, b: nat | a < b < 1024 && HasTable(mem', root, a) && HasTable(mem', root, b)
      ensures TableOf(mem', root, a) != TableOf(mem', root, b)
    {
      assert HasTable(mem, root, a) && HasTable(mem, root, b);
    }
  }

  /** What one store into a frame changes. */
  lemma EntryUpdate(mem: seq<Word>, mem': seq<Word>, frame: nat, i: nat, pte: Word)
    requires |mem| == WORDS && frame < FRAMES && i < 1024 && mem' == mem[frame * 1024 + i := pte]
    ensures forall f: nat, k: nat | f < FRAMES && k < 1024 ::
              Entry(mem', f, k) == if f == frame && k == i then pte else Entry(mem, f, k)
  {
  }

  /** Pointing an empty directory slot at a zeroed frame below `top` maps nothing. */
  lemma AddEmptyTable(mem: seq<Word>, root: nat, top: nat, i: nat, t: nat)
    requires WellFormed(mem, root, top) && i < 1024 && t < top
    requires !DirUsed(mem, root, i)
    requires forall j: nat | j < 1024 :: Entry(mem, t, j) == 0
    ensures var mem' := mem[root * 1024 + i := t * 1024 + 1];
            && WellFormed(mem', root, t)
            && SameWalk(mem, mem', root)
            && HasTable(mem', root, i) && TableOf(mem', root, i) == t
  {
    PteRoundTrip(t, 1);
    var mem' := mem[root * 1024 + i := t * 1024 + 1];
    EntryUpdate(mem, mem', root, i, t * 1024 + 1);
    forall k: nat | k < 1024
      ensures GoodDirEntry(mem', root, t, k)
    {
      assert GoodDirEntry(mem, root, top, k);
    }
    forall v: nat | v < PAGES
      ensures Walk(mem', root, v) == Walk(mem, root, v)
    {
      assert GoodDirEntry(mem, root, top, v / 1024);
    }
    forall a: nat, b: nat | a < b < 1024 && HasTable(mem', root, a) && HasTable(mem', root, b)
      ensures TableOf(mem', root, a) != TableOf(mem', root, b)
    {
      assert GoodDirEntry(mem, root, top, a) && GoodDirEntry(mem, root, top, b);
    }
  }

  /** That store takes one directory slot and one frame, and leaves the rest alone. */
  lemma AddEmptyTableTakes(mem: seq<Word>, root: nat, top: nat, i: nat, t: nat, frames: set<nat>)
    requires |mem| == WORDS && top <= root < FRAMES && i < 1024 && t < top
    requires !DirUsed(mem, root, i) && TablesAvoid(mem, root, frames)
    ensures var mem' := mem[root * 1024 + i := t * 1024 + 1];
            && UsesSlot(mem, mem', root, i)
            && TablesAvoid(mem', root, frames - {t})
            && (forall hi: nat | t < hi :: TablesBelow(mem, root, hi) ==> TablesBelow(mem', root, hi))
            && SameBelow(mem, mem', top)
  {
    PteRoundTrip(t, 1);
    var mem' := mem[root * 1024 + i := t * 1024 + 1];
    EntryUpdate(mem, mem', root, i, t * 1024 + 1);
    assert forall k: nat | k < 1024 && k != i :: HasTable(mem', root, k) == HasTable(mem, root, k);
  }

  /** Writing an aligned leaf into an empty directory slot maps exactly that megapage. */
  lemma MapMegapage(mem: seq<Word>, root: nat, top: nat, i: nat, ppn: nat, flags: nat)
    requires WellFormed(mem, root, top) && i < 1024 && ppn < FRAMES && ppn % 1024 == 0
    requires flags < 1024 && ValidLeaf(flags)
    requires !DirUsed(mem, root, i)
    ensures var mem' := mem[root * 1024 + i := ppn * 1024 + flags];
            && WellFormed(mem', root, top)
            && MapsMegapage(mem, mem', root, i, ppn, flags)
            && UsesSlot(mem, mem', root, i)
            && SameTables(mem, mem', root)
            && SameBelow(mem, mem', top)
  {
    PteRoundTrip(ppn, flags);
    var pte: Word := ppn * 1024 + flags;
    var mem' := mem[root * 1024 + i := pte];
    EntryUpdate(mem, mem', root, i, pte);
    forall k: nat | k < 1024
      ensures GoodDirEntry(mem', root, top, k)
    {
      assert GoodDirEntry(mem, root, top, k);
    }
    forall a: nat, b: nat | a < b < 1024 && HasTable(mem', root, a) && HasTable(mem', root, b)
      ensures TableOf(mem', root, a) != TableOf(mem', root, b)
    {
      assert GoodDirEntry(mem, root, top, a) && GoodDirEntry(mem, root, top, b);
    }
    forall v: nat | v < PAGES
      ensures Walk(mem', root, v) == if v / 1024 == i then Some(Leaf(ppn + v % 1024, flags)) else Walk(mem, root, v)
    {
      assert GoodDirEntry(mem, root, top, v / 1024);
    }
  }

  /** In a well-formed directory a page is unmapped exactly when its slot holds no valid entry. */
  lemma UnmappedIff(mem: seq<Word>, root: nat, top: nat, vpn: nat)
    requires WellFormed(mem, root, top) && vpn < PAGES
    ensures HasTable(mem, root, vpn / 1024) ==> TableOf(mem, root, vpn / 1024) < FRAMES
    ensures Walk(mem, root, vpn).None? <==>
            || !DirUsed(mem, root, vpn / 1024)
            || (HasTable(mem, root, vpn / 1024)
                && !V(Entry(mem, TableOf(mem, root, vpn / 1024), vpn % 1024)))
  {
    assert GoodDirEntry(mem, root, top, vpn / 1024);
  }
}
