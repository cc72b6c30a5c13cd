/** `memory/paging/paging.c`: tables made on demand, the walk, mapping and aliasing of ranges. */
module Paging {
  import opened Bytes
  import opened PageTree
  import opened PageSupply

  /** Pages that the allocator has left: usable, pairwise distinct and not yet in use. */
  ghost predicate SupplyOk(supply: seq<nat>, mem: Memory) {
    && (forall i :: 0 <= i < |supply| ==> GoodPage(supply[i]) && supply[i] !in mem)
    && (forall i, j :: 0 <= i < j < |supply| ==> supply[i] != supply[j])
  }

  class PageTables {
    const root: nat
    /** The pages that `kzalloc` returns next; it returns null when they are used up. */
    var supply: seq<nat>
    /** The table pages, by address. */
    var mem: Memory
    ghost var tables: Tables
    /** The flat map that the tables stand for. */
    ghost var pages: imap<nat, nat>

    ghost predicate Valid()
      reads this
    {
      Sound(mem, tables) && tables[ROOT] == root && SupplyOk(supply, mem) && pages == Flat(mem, tables)
    }

    ghost function Stocked(): Stock
      reads this
    {
      Stock(tables.Keys, |supply|)
    }

    /** `createEmptyPageTable`, for the page `root` from `kzalloc`. */
    constructor (root: nat, supply: seq<nat>)
      requires GoodPage(root) && SupplyOk([root] + supply, map[])
      ensures Valid() && this.root == root && this.supply == supply
      ensures pages == Unmapped() && Stocked() == Stock({ROOT}, |supply|)
    {
      this.root := root;
      this.supply := supply;
      mem := map[root := EmptyTable()];
      tables := map[ROOT := root];
      pages := Unmapped();
      new;
      forall n, i: nat | n in tables && n.depth < 3 && i < 512 ensures SlotOk(mem, tables, n, i) {
      }
      forall i | 0 <= i < |supply| ensures GoodPage(supply[i]) && supply[i] !in mem {
        assert ([root] + supply)[i + 1] == supply[i] && ([root] + supply)[0] == root;
      }
      forall i, j | 0 <= i < j < |supply| ensures supply[i] != supply[j] {
        assert ([root] + supply)[i + 1] == supply[i] && ([root] + supply)[j + 1] == supply[j];
      }
    }

    method Kzalloc() returns (page: nat)
      requires Valid()
      modifies this`supply
      ensures if old(supply) == [] then page == 0 && supply == []
              else page == old(supply)[0] && supply == old(supply)[1..] && GoodPage(page) && page !in mem
      ensures SupplyOk(supply, mem[page := EmptyTable()]) && SupplyOk(supply, mem)
    {
      if supply == [] { return 0; }
      page := supply[0];
      supply := supply[1..];
    }

    /** `getOrCreateEntry` on the table `n`: no page gets a new entry by it. */
    method GetOrCreateEntry(table: nat, entryIndex: nat, ghost n: Dir) returns (r: nat)
      requires Valid() && n in tables && tables[n] == table && n.depth < 3 && entryIndex < 512
      modifies this
      ensures Valid() && pages == old(pages)
      ensures Opened(old(Stocked()), {Child(n, entryIndex)}, r != 0, Stocked())
      ensures r != 0 ==> DownToPage(r) != 0 && Child(n, entryIndex) in tables && DownToPage(r) == tables[Child(n, entryIndex)]
    {
      assert TableOk(mem, tables, n) && SlotOk(mem, tables, n, entryIndex);
      if mem[table][entryIndex] == 0 {
        var newEntry := Kzalloc();
        if newEntry == 0 {
          ChildIsNew(mem, tables, n, entryIndex);
          return 0;
        }
        PagesInMemory(mem, tables);
        ChildIsNew(mem, tables, n, entryIndex);
        HangKeeps(mem, tables, n, entryIndex, newEntry);
        HangKeepsFlat(mem, tables, n, entryIndex, newEntry);
        mem := Hung(mem, table, entryIndex, newEntry);
        ghost var made := tables.Keys;
        tables := tables[Child(n, entryIndex) := newEntry];
        assert tables.Keys == made + {Child(n, entryIndex)};
        return newEntry;
      }
      TableFacts(mem, tables, Child(n, entryIndex));
      assert tables.Keys == tables.Keys + {Child(n, entryIndex)};
      return mem[table][entryIndex];
    }

    // ----- the walk

    /** `returnTableEntryNoFlags` on the inner table `n`. */
    function ReturnTableEntryNoFlags(table: nat, index: nat, ghost n: Dir): (r: nat)
      requires Valid() && n in tables && tables[n] == table && n.depth < 3 && index < 512
      reads this
      ensures if Child(n, index) in tables then r == tables[Child(n, index)] != 0 else r == 0
    {
      assert TableOk(mem, tables, n) && SlotOk(mem, tables, n, index);
      TableFacts(mem, tables, Child(n, index));
      DownToPage(mem[table][index])
    }

    /** `getPTTable`: the page table of an address, or null where none has been made. */
    function GetPTTable(virt: nat): (r: nat)
      requires Valid()
      reads this
      ensures var n := Dir(3, PageNo(virt) / 512); if n in tables then r == tables[n] != 0 else r == 0
    {
      ghost var p := PageNo(virt);
      WayTo(mem, tables, p);
      WayOf(virt);
      var pdpTable := ReturnTableEntryNoFlags(root, Pml4Index(virt), ROOT);
      if pdpTable == 0 then 0 else
        var pdTable := ReturnTableEntryNoFlags(pdpTable, PdpIndex(virt), Dir(1, p / 512 / 512 / 512));
        if pdTable == 0 then 0 else
          ReturnTableEntryNoFlags(pdTable, PdIndex(virt), Dir(2, p / 512 / 512))
    }

    /** `virtualToPhysical`. The walk reads the flat map; in an unmapped page it answers null or, next
        to mapped pages, the offset. */
    function VirtualToPhysical(virt: nat): (r: nat)
      requires Valid()
      reads this
      ensures At(pages, PageNo(virt)) != 0 ==> r == Translate(pages, virt)
      ensures At(pages, PageNo(virt)) == 0 ==> r == if Dir(3, PageNo(virt) / 512) in tables then virt % SIZE_4KB else 0
    {
      var ptTable := GetPTTable(virt);
      WayOf(virt);
      if ptTable == 0 then 0 else
        assert TableOk(mem, tables, Dir(3, PageNo(virt) / 512));
        DownToPage(mem[ptTable][PtIndex(virt)]) + virt % SIZE_4KB
    }

    // ----- mapping

    /** The page table of a page, made if need be. */
    method OpenPageTable(virt: nat) returns (ptTable: nat)
      requires Valid()
      modifies this
      ensures Valid() && pages == old(pages)
      ensures Opened(old(Stocked()), Way(PageNo(virt)), ptTable != 0, Stocked())
      ensures ptTable != 0 ==> var n := Dir(3, PageNo(virt) / 512); n in tables && ptTable == tables[n]
    {
      ghost var p, s0 := PageNo(virt), Stocked();
      ghost var d1, d2, d3 := Dir(1, p / 512 / 512 / 512), Dir(2, p / 512 / 512), Dir(3, p / 512);
      assert Way(p) == {d1} + {d2} + {d3} && Way(p) == {d1} + {d2} + {d3};
      WayTo(mem, tables, p);
      WayOf(virt);
      ptTable := 0;
      var entry := GetOrCreateEntry(root, Pml4Index(virt), ROOT);
      ghost var s1 := Stocked();
      var pdpTable := DownToPage(entry);
      if pdpTable == 0 {
        FailedForMore(s0, {d1}, s1, Way(p));
        return;
      }
      entry := GetOrCreateEntry(pdpTable, PdpIndex(virt), d1);
      OpenedThen(s0, {d1}, s1, {d2}, entry != 0, Stocked());
      ghost var s2 := Stocked();
      var pdTable := DownToPage(entry);
      if pdTable == 0 {
        FailedForMore(s0, {d1} + {d2}, s2, Way(p));
        return;
      }
      entry := GetOrCreateEntry(pdTable, PdIndex(virt), d2);
      OpenedThen(s0, {d1} + {d2}, s2, {d3}, entry != 0, Stocked());
      ptTable := DownToPage(entry);
    }

    /** One turn of the loop of `mapOrCreateRange`. */
    method MapPage(virt: nat, phys: nat) returns (r: int)
      requires Valid()
      modifies this
      ensures Valid() && (r == SUCCESS || r == -ENMEM)
      ensures Opened(old(Stocked()), Way(PageNo(virt)), r == SUCCESS, Stocked())
      ensures pages == if r == SUCCESS then old(pages)[PageNo(virt) := Pack(phys)] else old(pages)
    {
      ghost var n := Dir(3, PageNo(virt) / 512);
      WayOf(virt);
      var ptTable := OpenPageTable(virt);
      if ptTable == 0 { return -ENMEM; }
      assert TableOk(mem, tables, n);
      StoreKeeps(mem, tables, n, PtIndex(virt), Pack(phys));
      StoreIsUpdate(mem, tables, n, PtIndex(virt), Pack(phys));
      mem := Stored(mem, ptTable, PtIndex(virt), Pack(phys));
      pages := Flat(mem, tables);
      return SUCCESS;
    }

    /** One turn of the loop of `mapOrCreateRange`. */
    method MapTurn(physStart: nat, virtStart: nat, pageCounter: nat, ghost f: imap<nat, nat>, ghost stock: Stock)
      returns (r: int, next: nat)
      requires Valid() && pages == MapPages(f, physStart, virtStart, pageCounter)
      requires Opened(stock, Ways(virtStart, pageCounter), true, Stocked())
      modifies this
      ensures Valid() && (r == SUCCESS || r == -ENMEM) && next == pageCounter + 1
      ensures if r == SUCCESS then pages == MapPages(f, physStart, virtStart, next) else pages == old(pages)
      ensures Opened(stock, Ways(virtStart, next), r == SUCCESS, Stocked())
    {
      var virt, phys := virtStart + pageCounter * SIZE_4KB, physStart + pageCounter * SIZE_4KB;
      ghost var g, before := pages, Stocked();
      next := pageCounter + 1;
      r := MapPage(virt, phys);
      MapPagesMore(f, g, physStart, virtStart, pageCounter, virt, phys, next);
      OpenedPage(stock, virtStart, pageCounter, virt, next, before, r == SUCCESS, Stocked());
    }

    /** `mapOrCreateRange`: maps the pages of the range in order, at least one. It stops when a table
        is missing and no page is left; so it succeeds exactly when there are pages for all missing
        tables. */
    method MapOrCreateRange(physStart: nat, virtStart: nat, size: nat) returns (r: int, ghost done: nat)
      requires Valid() && size <= SIZE_2GB
      modifies this
      ensures Valid() && (r == SUCCESS || r == -ENMEM)
      ensures pages == MapPages(old(pages), physStart, virtStart, done)
      ensures if r == SUCCESS then done == RangePages(size) else done < RangePages(size)
      ensures r == SUCCESS <==> |Ways(virtStart, RangePages(size)) - old(tables.Keys)| <= |old(supply)|
      ensures Opened(old(Stocked()), Ways(virtStart, RangePages(size)), r == SUCCESS, Stocked())
    {
      ghost var stock, f, count := Stocked(), pages, RangePages(size);
      var pageCounter, sizeMapped := 0, 0;
      var more := true;
      while more
        invariant Valid() && 0 <= pageCounter <= count && sizeMapped == pageCounter * SIZE_4KB && (more <==> pageCounter < count)
        invariant pages == MapPages(f, physStart, virtStart, pageCounter)
        invariant Opened(stock, Ways(virtStart, pageCounter), true, Stocked())
        decreases count - pageCounter
      {
        var next;
        r, next := MapTurn(physStart, virtStart, pageCounter, f, stock);
        if r != SUCCESS {
          RangeFailed(stock, virtStart, next, count, Stocked());
          return r, pageCounter;
        }
        pageCounter, sizeMapped := next, sizeMapped + SIZE_4KB;
        more := sizeMapped < size;
        RangeGoesOn(size, pageCounter);
      }
      OpenedExactly(stock, Ways(virtStart, pageCounter), true, Stocked());
      return SUCCESS, pageCounter;
    }

    /** `remapVirtualToVirtual`. */
    method RemapVirtualToVirtual(to: nat, from: nat) returns (r: int)
      requires Valid()
      modifies this
      ensures Valid() && (r == SUCCESS || r == -ENMEM)
      ensures Opened(old(Stocked()), Way(PageNo(to)), r == SUCCESS, Stocked())
      ensures pages == AliasStep(old(pages), to, from, r == SUCCESS)
    {
      var fromPhysical := VirtualToPhysical(from);
      ghost var f, done := pages, 0;
      OffsetDropped(At(f, PageNo(from)), from, fromPhysical);
      var frame, target := DownToPage(fromPhysical), DownToPage(to);
      r, done := MapOrCreateRange(frame, target, SIZE_4KB);
      OneAlias(f, to, from, frame, target, done, r == SUCCESS, pages);
      OneWay(to, target);
    }

    /** One turn of the loop of `remapVirtualToVirtualRange`. */
    method RemapTurn(to: nat, from: nat, i: nat, ghost next: nat, ghost ok: seq<bool>, ghost f: imap<nat, nat>, ghost stock: Stock)
      returns (ret: int, ghost ok': seq<bool>)
      requires Valid() && |ok| == i && next == i + 1 && pages == CopyPages(f, to, from, ok)
      requires Opened(stock, Ways(to, i), AllOk(ok), Stocked())
      modifies this
      ensures Valid() && |ok'| == next && ret <= 0 && pages == CopyPages(f, to, from, ok')
      ensures Opened(stock, Ways(to, next), AllOk(ok'), Stocked())
    {
      var toPage, fromPage := to + i * SIZE_4KB, from + i * SIZE_4KB;
      ghost var before, beforeStock := pages, Stocked();
      ret := RemapVirtualToVirtual(toPage, fromPage);
      ok' := ok + [ret == SUCCESS];
      CopyPagesMore(f, before, to, from, ok, toPage, fromPage, ret == SUCCESS);
      OpenedNext(stock, to, ok, i, toPage, beforeStock, ret == SUCCESS, Stocked(), next);
    }

    /** `remapVirtualToVirtualRange`: statuses are errors when negative, but it looks for positive
        ones, so it always reports success; `ok` says which pages were really mapped. These are all
        exactly when there are pages for all missing tables. */
    method RemapVirtualToVirtualRange(to: nat, from: nat, size: nat) returns (r: int, ghost ok: seq<bool>)
      requires Valid() && size < SIZE_64
      modifies this
      ensures Valid() && r == SUCCESS && |ok| == UpToPage(size) / SIZE_4KB
      ensures pages == CopyPages(old(pages), to, from, ok)
      ensures AllOk(ok) <==> |Ways(to, |ok|) - old(tables.Keys)| <= |old(supply)|
    {
      var blocks := UpToPage(size) / SIZE_4KB;
      ghost var stock, f := Stocked(), pages;
      ok := [];
      for i := 0 to blocks
        invariant Valid() && |ok| == i && pages == CopyPages(f, to, from, ok)
        invariant Opened(stock, Ways(to, i), AllOk(ok), Stocked())
      {
        var ret;
        ret, ok := RemapTurn(to, from, i, i + 1, ok, f, stock);
        if ret > 0 { return -ENMEM, ok; }
      }
      OpenedExactly(stock, Ways(to, blocks), AllOk(ok), Stocked());
      return SUCCESS, ok;
    }
  }

  /** With no page left, aliasing a range in an empty table leaves pages unmapped, with success. */
  method RemapsNothing(root: nat, to: nat, from: nat, size: nat) returns (r: int, ghost ok: seq<bool>)
    requires GoodPage(root) && 0 < size <= SIZE_2GB
    ensures r == SUCCESS && |ok| > 0 && !AllOk(ok)
  {
    var t := new PageTables(root, []);
    assert t.tables.Keys == {ROOT} && t.supply == [];
    SomePages(size);
    r, ok := t.RemapVirtualToVirtualRange(to, from, size);
    NothingMade(to, |ok|);
  }

  /** The kernel table after the first `i` regions. */
  ghost predicate LaidOut(t: PageTables, regions: seq<Region>, i: nat, virt: nat, sizeMapped: nat, left: nat)
    requires i <= |regions|
    reads t
  {
    && t.Valid() && sizeMapped == PagesBefore(regions, i) * SIZE_4KB
    && t.pages == Layout(Unmapped(), regions, i, virt)
    && Opened(Stock({ROOT}, left), LayoutWays(regions, i, virt), true, t.Stocked())
  }

  /** On a free region. */
  method MapRegion(t: PageTables, regions: seq<Region>, i: nat, virtualStart: nat, sizeMapped: nat, ghost left: nat)
    returns (ret: int, sizeMapped': nat)
    requires i < |regions| && regions[i].kind == MEMORY_TYPE_FREE && regions[i].length <= SIZE_2GB
    requires LaidOut(t, regions, i, virtualStart, sizeMapped, left)
    modifies t
    ensures if ret == SUCCESS then LaidOut(t, regions, i + 1, virtualStart, sizeMapped', left)
            else ret < 0 && left < |LayoutWays(regions, |regions|, virtualStart)|
  {
    var physicalStart, rangeSize := DownToPage(regions[i].address), DownToPage(regions[i].length);
    var start := virtualStart + sizeMapped;
    ghost var before, f := t.Stocked(), t.pages;
    ghost var done;
    ret, done := t.MapOrCreateRange(physicalStart, start, rangeSize);
    LayoutOpened(Stock({ROOT}, left), regions, i, virtualStart, before, start, RangePages(rangeSize), ret == SUCCESS, t.Stocked());
    sizeMapped' := sizeMapped + rangeSize;
    if ret == SUCCESS {
      LayoutMapped(Unmapped(), f, t.pages, regions, i, virtualStart, sizeMapped, physicalStart, start, rangeSize, done);
    }
  }

  /** One turn of the loop of `createKernelTable`. */
  method RegionTurn(t: PageTables, regions: seq<Region>, i: nat, next: nat, virtualStart: nat, sizeMapped: nat, ghost left: nat)
    returns (ret: int, sizeMapped': nat)
    requires i < |regions| && next == i + 1 && (regions[i].kind == MEMORY_TYPE_FREE ==> regions[i].length <= SIZE_2GB)
    requires LaidOut(t, regions, i, virtualStart, sizeMapped, left)
    modifies t
    ensures if ret == SUCCESS then LaidOut(t, regions, next, virtualStart, sizeMapped', left)
            else ret < 0 && left < |LayoutWays(regions, |regions|, virtualStart)|
  {
    ret, sizeMapped' := SUCCESS, sizeMapped;
    if regions[i].kind == MEMORY_TYPE_FREE {
      ret, sizeMapped' := MapRegion(t, regions, i, virtualStart, sizeMapped, left);
    } else {
      RegionSkipped(t, regions, i, virtualStart, sizeMapped, left);
    }
  }

  /** The loop of `createKernelTable`. */
  method MapRegions(t: PageTables, memoryMap: seq<Region>, virtualStart: nat, ghost left: nat) returns (ret: int)
    requires LaidOut(t, memoryMap, 0, virtualStart, 0, left)
    requires forall i :: 0 <= i < |memoryMap| && memoryMap[i].kind == MEMORY_TYPE_FREE ==> memoryMap[i].length <= SIZE_2GB
    modifies t
    ensures if ret == SUCCESS then
              && t.Valid() && t.pages == Layout(Unmapped(), memoryMap, |memoryMap|, virtualStart)
              && |LayoutWays(memoryMap, |memoryMap|, virtualStart)| <= left
            else ret < 0 && left < |LayoutWays(memoryMap, |memoryMap|, virtualStart)|
  {
    var sizeMapped := 0;
    for i := 0 to |memoryMap|
      invariant LaidOut(t, memoryMap, i, virtualStart, sizeMapped, left)
    {
      ret, sizeMapped := RegionTurn(t, memoryMap, i, i + 1, virtualStart, sizeMapped, left);
      if ret < 0 { return; }
    }
    AllLaidOut(t, memoryMap, virtualStart, sizeMapped, left);
    ret := SUCCESS;
  }

  /** `createKernelTable`: the free regions of the memory map one behind the other from
      `virtualStart` on; null exactly when the allocator has too few pages for the tables. */
  method CreateKernelTable(supply: seq<nat>, virtualStart: nat, memoryMap: seq<Region>) returns (t: PageTables?)
    requires SupplyOk(supply, map[])
    requires forall i :: 0 <= i < |memoryMap| && memoryMap[i].kind == MEMORY_TYPE_FREE ==> memoryMap[i].length <= SIZE_2GB
    ensures t != null ==> fresh(t) && t.Valid() && t.pages == Layout(Unmapped(), memoryMap, |memoryMap|, virtualStart)
    ensures t == null <==> |supply| < 1 + |LayoutWays(memoryMap, |memoryMap|, virtualStart)|
  {
    if supply == [] { return null; }
    assert [supply[0]] + supply[1..] == supply;
    var pml4Table := new PageTables(supply[0], supply[1..]);
    NothingLaidOut(pml4Table, memoryMap, virtualStart, |supply| - 1);
    var ret := MapRegions(pml4Table, memoryMap, virtualStart, |supply| - 1);
    if ret < 0 { return null; }
    return pml4Table;
  }

  lemma NothingLaidOut(t: PageTables, regions: seq<Region>, virt: nat, left: nat)
    requires t.Valid() && t.pages == Unmapped() && t.Stocked() == Stock({ROOT}, left)
    ensures LaidOut(t, regions, 0, virt, 0, left)
  {
    assert {ROOT} + LayoutWays(regions, 0, virt) == {ROOT};
  }

  lemma RegionSkipped(t: PageTables, regions: seq<Region>, i: nat, virt: nat, sizeMapped: nat, left: nat)
    requires i < |regions| && regions[i].kind != MEMORY_TYPE_FREE && LaidOut(t, regions, i, virt, sizeMapped, left)
    ensures LaidOut(t, regions, i + 1, virt, sizeMapped, left)
  {
    LayoutMore(Unmapped(), regions, i, virt);
    assert LayoutWays(regions, i + 1, virt) == LayoutWays(regions, i, virt);
  }

  lemma AllLaidOut(t: PageTables, regions: seq<Region>, virt: nat, sizeMapped: nat, left: nat)
    requires LaidOut(t, regions, |regions|, virt, sizeMapped, left)
    ensures |LayoutWays(regions, |regions|, virt)| <= left
  {
    var all := LayoutWays(regions, |regions|, virt);
    LayoutBelowRoot(regions, |regions|, virt);
    OpenedExactly(Stock({ROOT}, left), all, true, t.Stocked());
    assert all - {ROOT} == all;
  }
}
