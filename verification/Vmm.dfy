/** xos/src/vmm.c: the downward-bumping page allocator and the two mapping calls. */
module Vmm {
  import opened Common
  import opened Sv32

  datatype Status =
    | Ok
    | BadParam     // XOS_ERR_BAD_PARAM
    | Conflict     // XOS_ERR_CONFLICT
    | AlreadyHere  // -1
    | Panic        // panic(): the call never returns

  class Memory {
    const ram: array<Word>  // physical memory, indexed by physical address / 4
    var paTop: nat
    var paBottom: nat
    ghost const paStart: nat       // where paTop started
    ghost var handedOut: set<nat>  // frames the callers of ppage_alloc_z own

    ghost predicate Valid()
      reads this, ram
    {
      && ram.Length == WORDS
      && (forall f | f in handedOut :: paTop / 4096 <= f < FRAMES)
      && paTop % 4096 == 0 && paBottom % 4096 == 0
      && paBottom <= paTop <= paStart < 0x1_0000_0000 && paStart % 4096 == 0
    }

    ghost function Ram(): (s: seq<Word>)
      reads this, ram
    {
      ram[..]
    }

    ghost predicate Paging(root: nat)
      reads this, ram
    {
      && Valid()
      && WellFormed(Ram(), root, paTop / 4096)
      && TablesAvoid(Ram(), root, handedOut)
      && TablesBelow(Ram(), root, paStart / 4096)
    }

    constructor (ram: array<Word>, start: nat, end: nat)
      requires ram.Length == WORDS
      requires start % 4096 == 0 && end % 4096 == 0 && start <= end < 0x1_0000_0000
      ensures Valid() && this.ram == ram && paBottom == start && paTop == end
      ensures handedOut == {} && paStart == end
    {
      this.ram := ram;
      paStart := end;
      paBottom := start;
      paTop := end;
      handedOut := {};
    }

    /** The new frame is the one just below the old top; it is zeroed and nothing else changes. */
    method PpageAllocZ() returns (pa: Option<nat>)
      requires Valid()
      modifies this`paTop, this`handedOut, ram
      ensures Valid()
      ensures pa.None? <==> old(paTop) == paBottom
      ensures pa.None? ==> paTop == old(paTop) && Ram() == old(Ram()) && handedOut == old(handedOut)
      ensures pa.Some? ==> pa.value == paTop == old(paTop) - 4096
      ensures pa.Some? ==> paTop / 4096 !in old(handedOut) && handedOut == old(handedOut) + {paTop / 4096}
      ensures pa.Some? ==> (forall k | 0 <= k < WORDS ::
                ram[k] == if paTop / 4 <= k < paTop / 4 + 1024 then 0 else old(ram[k]))
      ensures pa.Some? ==> SameBelow(old(Ram()), Ram(), paTop / 4096)
    {
      if paTop == paBottom {
        return None;
      }
      paTop := paTop - 4096;
      var page := paTop / 4;
      var i := 0;
      while i < 1024
        modifies ram
        invariant 0 <= i <= 1024
        invariant forall k | 0 <= k < WORDS :: ram[k] == if page <= k < page + i then 0 else old(ram[k])
      {
        ram[page + i] := 0;
        i := i + 1;
      }
      handedOut := handedOut + {paTop / 4096};
      return Some(paTop);
    }

    /** Claims a fresh frame as the table behind directory slot `i`. */
    method AddTable(pd: nat, i: nat) returns (table: Option<nat>)
      requires pd % 4096 == 0 && Paging(pd / 4096) && i < 1024
      requires !DirUsed(Ram(), pd / 4096, i)
      modifies this`paTop, this`handedOut, ram
      ensures table.None? <==> old(paTop) == paBottom
      ensures table.None? ==> paTop == old(paTop) && Ram() == old(Ram())
      ensures Paging(pd / 4096) && handedOut == old(handedOut)
      ensures table.Some? ==>
                && table.value == paTop == old(paTop) - 4096
                && HasTable(Ram(), pd / 4096, i) && TableOf(Ram(), pd / 4096, i) == paTop / 4096
                && SameWalk(old(Ram()), Ram(), pd / 4096)
                && UsesSlot(old(Ram()), Ram(), pd / 4096, i)
                && SameBelow(old(Ram()), Ram(), paTop / 4096)
    {
      hide Walk, WellFormed;
      ghost var root, top := pd / 4096, paTop / 4096;
      ghost var before := Ram();
      table := PpageAllocZ();
      if table.Some? {
        ghost var zeroed := Ram();
        WalkDependsOnlyOnTables(before, zeroed, root, top);
        assert !DirUsed(zeroed, root, i) && TablesAvoid(zeroed, root, old(handedOut));
        AddEmptyTable(zeroed, root, top, i, table.value / 4096);
        AddEmptyTableTakes(zeroed, root, top, i, table.value / 4096, old(handedOut));
        ram[pd / 4 + i] := table.value / 4 + 1;
        assert Ram() == zeroed[root * 1024 + i := table.value / 4096 * 1024 + 1];
        handedOut := handedOut - {paTop / 4096};  // the page table owns it now
        assert handedOut == old(handedOut) == old(handedOut) - {paTop / 4096};
      }
    }

    /** Maps one 4KB page, or changes nothing; flags that are no leaf map nothing. */
    method VmMap4k(pd: nat, va: Word, pa: Word, flags: Word) returns (r: Status)
      requires pd % 4096 == 0 && Paging(pd / 4096)
      modifies this`paTop, this`handedOut, ram
      ensures Valid() && handedOut == old(handedOut)
      ensures r != Ok || Keeps(flags % 1024) ==> Paging(pd / 4096)
      ensures r == BadParam <==> va % 4096 != 0 || pa % 4096 != 0
      ensures r != BadParam ==>
                var used := old(DirUsed(Ram(), pd / 4096, va / 4096 / 1024));
                && (r == Conflict || r == AlreadyHere <==> old(Walk(Ram(), pd / 4096, va / 4096)).Some?)
                && (r == Conflict ==> !old(HasTable(Ram(), pd / 4096, va / 4096 / 1024)))
                && (r == AlreadyHere ==> old(HasTable(Ram(), pd / 4096, va / 4096 / 1024)))
                && (r == Panic <==> !used && old(paTop) == paBottom)
      ensures r != Ok ==> paTop == old(paTop) && Ram() == old(Ram())
      ensures r == Ok ==>
                && (if ValidLeaf(flags % 1024)
                    then MapsPage(old(Ram()), Ram(), pd / 4096, va / 4096, pa / 4096, flags % 1024)
                    else SameWalk(old(Ram()), Ram(), pd / 4096))
                && UsesSlot(old(Ram()), Ram(), pd / 4096, va / 4096 / 1024)
                && paTop == old(paTop) - (if old(DirUsed(Ram(), pd / 4096, va / 4096 / 1024)) then 0 else 4096)
                && SameBelow(old(Ram()), Ram(), paTop / 4096)
    {
      hide Walk, WellFormed;
      ghost var root, vpn := pd / 4096, va / 4096;
      ghost var before := Ram();
      var idx1 := va / 0x40_0000;
      assert idx1 == vpn / 1024;
      if va % 4096 != 0 || pa % 4096 != 0 {
        return BadParam;
      }
      UnmappedIff(before, root, paTop / 4096, vpn);
      var pte := ram[pd / 4 + idx1];
      assert pte == Entry(before, root, idx1);
      var table: nat;
      if V(pte) {
        if X(pte) || W(pte) || R(pte) {
          return Conflict;
        }
        table := Ppn(pte) * 4096;
      } else {
        var page := AddTable(pd, idx1);
        if page.None? {
          return Panic;
        }
        table := page.value;
      }
      r := FillSlot(pd, va, table, pa, flags);
    }

    /** Flags that leave the tables well formed: those of a leaf, or of an invalid entry. */
    static predicate Keeps(flags: Word) { ValidLeaf(flags) || !V(flags) }

    /** The second half of vm_map_4k: `table` is the page table behind the directory slot. */
    method FillSlot(pd: nat, va: Word, table: nat, pa: Word, flags: Word) returns (r: Status)
      requires pd % 4096 == 0 && Paging(pd / 4096) && va % 4096 == 0 && pa % 4096 == 0
      requires HasTable(Ram(), pd / 4096, va / 4096 / 1024)
      requires table == TableOf(Ram(), pd / 4096, va / 4096 / 1024) * 4096
      modifies ram
      ensures Valid() && handedOut == old(handedOut)
      ensures r != Ok || Keeps(flags % 1024) ==> Paging(pd / 4096)
      ensures r == if old(Walk(Ram(), pd / 4096, va / 4096)).Some? then AlreadyHere else Ok
      ensures r != Ok ==> Ram() == old(Ram())
      ensures r == Ok ==>
                && (if ValidLeaf(flags % 1024)
                    then MapsPage(old(Ram()), Ram(), pd / 4096, va / 4096, pa / 4096, flags % 1024)
                    else SameWalk(old(Ram()), Ram(), pd / 4096))
                && UsesSlot(old(Ram()), Ram(), pd / 4096, va / 4096 / 1024)
                && SameBelow(old(Ram()), Ram(), paTop / 4096)
    {
      hide Walk, WellFormed, MapsPage, MapsMegapage, SameWalk, SameBelow, UsesSlot;
      ghost var root, vpn, ready := pd / 4096, va / 4096, Ram();
      UnmappedIff(ready, root, paTop / 4096, vpn);
      var slot := table / 4 + va / 4096 % 1024;
      assert slot == TableOf(ready, root, vpn / 1024) * 1024 + vpn % 1024;
      assert ram[slot] == Entry(ready, TableOf(ready, root, vpn / 1024), vpn % 1024);
      if V(ram[slot]) {
        return AlreadyHere;
      }
      if ValidLeaf(flags % 1024) {
        MapInTable(ready, root, paTop / 4096, vpn, pa / 4096, flags % 1024);
      } else {
        StoreNoLeaf(ready, root, paTop / 4096, vpn, pa / 4096, flags % 1024);
        if !V(flags % 1024) {
          StoreInvalidLeaf(ready, root, paTop / 4096, vpn, pa / 4096, flags % 1024);
        }
      }
      var pte := pa / 4096 * 1024 + flags % 1024;
      ram[slot] := pte;
      assert Ram() == ready[slot := pte];
      return Ok;
    }

    /** Maps one 4MB megapage, or changes nothing; flags of a pointer make `pa` a page table. */
    method VmMap4m(pd: nat, va: Word, pa: Word, flags: Word) returns (r: Status)
      requires pd % 4096 == 0 && Paging(pd / 4096)
      modifies ram
      ensures Valid() && handedOut == old(handedOut)
      ensures r != Ok || Keeps(flags % 1024) ==> Paging(pd / 4096)
      ensures r == BadParam <==> va % 0x40_0000 != 0 || pa % 0x40_0000 != 0
      ensures r == Conflict <==> r != BadParam && old(DirUsed(Ram(), pd / 4096, va / 0x40_0000))
      ensures r == BadParam || r == Conflict || r == Ok
      ensures r != Ok ==> Ram() == old(Ram())
      ensures r == Ok && ValidLeaf(flags % 1024) ==>
                && MapsMegapage(old(Ram()), Ram(), pd / 4096, va / 0x40_0000, pa / 4096, flags % 1024)
                && UsesSlot(old(Ram()), Ram(), pd / 4096, va / 0x40_0000)
      ensures r == Ok && !ValidLeaf(flags % 1024) ==>
                if Pointer(flags % 1024)
                then HasTable(Ram(), pd / 4096, va / 0x40_0000) &&
                  TableOf(Ram(), pd / 4096, va / 0x40_0000) == pa / 4096
                else SameWalk(old(Ram()), Ram(), pd / 4096)
      ensures r == Ok ==> SameBelow(old(Ram()), Ram(), paTop / 4096)
    {
      hide Walk, WellFormed, MapsPage, MapsMegapage, SameWalk, SameBelow, UsesSlot;
      ghost var root := pd / 4096;
      ghost var before := Ram();
      var idx1 := va / 0x40_0000;
      if va % 0x40_0000 != 0 || pa % 0x40_0000 != 0 {
        return BadParam;
      }
      var pte := ram[pd / 4 + idx1];
      assert pte == Entry(before, root, idx1);
      if V(pte) {
        return Conflict;
      }
      if ValidLeaf(flags % 1024) {
        MapMegapage(before, root, paTop / 4096, idx1, pa / 4096, flags % 1024);
      } else {
        StoreNoMegapage(before, root, paTop / 4096, idx1, pa / 4096, flags % 1024);
        if !V(flags % 1024) {
          StoreInvalid(before, root, paTop / 4096, idx1, pa / 4096, flags % 1024);
        }
      }
      ram[pd / 4 + idx1] := pa / 4096 * 1024 + flags % 1024;
      assert Ram() == before[root * 1024 + idx1 := pa / 4096 * 1024 + flags % 1024];
      return Ok;
    }
  }
}
