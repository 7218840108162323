/** kern/page_tables.c: mapping, translating, measuring, copying and destroying the tables under
    one root, whose pages come from the allocator. */
module PageTables {
  import opened Bits
  import opened BitSets
  import opened FreeBlocks
  import opened FreelistLinks
  import opened Heaps
  import opened Options
  import opened PageEncoding
  import opened PageTree

  /** The virtual page number of an address, as the four indices see it. */
  function VPage(address: u64): (vp: nat)
    ensures vp < VIRTUAL_PAGES
  {
    address / 4096 % VIRTUAL_PAGES
  }

  /** The page number of a pointer into the kernel window. */
  function PageOf(ptr: u64): (page: nat)
    requires ptr >= KERNEL_SPACE_BEGIN
    ensures page < FRAMES
  {
    (ptr - KERNEL_SPACE_BEGIN) / 4096
  }

  predicate KernelPtr(ptr: u64) {
    ptr == 0 || ptr >= KERNEL_SPACE_BEGIN
  }

  /** Flags that leave the address and huge-page bits alone and keep entries non-empty. */
  predicate TableFlags(flags: u64) {
    FlagsOk(flags) && !IsHuge(flags) && flags != 0
  }

  /** The tables are in allocated pages. */
  predicate Owned(tables: Tables, free: Pages, usable: Pages) {
    |free| == |usable| && forall t: nat | t in tables :: t < |free| && !free[t] && usable[t]
  }

  function ClaimedPages(free: Pages, tables: Tables): (f: Pages) {
    seq(|free|, p requires 0 <= p < |free| => free[p] || p in tables)
  }

  /** A free page that becomes a table stays claimed. */
  lemma ClaimedMoves(free: Pages, usable: Pages, tables: Tables, after: Tables, c: nat)
    requires Owned(tables, free, usable) && c < |free| && free[c] && usable[c]
    requires after.Keys == tables.Keys + {c}
    ensures Owned(after, free[c := false], usable)
    ensures ClaimedPages(free[c := false], after) == ClaimedPages(free, tables)
  {
  }

  /** The flags that the entries of a mapping carry: the given ones, with the huge-page bit in 2MB leaves. */
  function WithHuge(flags: u64): set<nat> {
    {flags, Or(flags, PTE_HUGE_PAGE)}
  }

  /** Those flags are the given ones in every bit but that of huge pages. */
  lemma WithHugeBits(flags: u64, x: nat, k: nat)
    requires x in WithHuge(flags) && k != 7
    ensures Bit(x, k) == Bit(flags, k)
  {
    Constants();
    BitOfOr(flags, PTE_HUGE_PAGE, k);
    BitOfPow2(7, k);
  }

  lemma AddressIndices(address: u64)
    ensures var ix, vp := PageTableIndices(address), VPage(address);
            Index(vp, 1) == ix.p1 && Index(vp, 2) == ix.p2 && Index(vp, 3) == ix.p3 && Index(vp, 4) == ix.p4
  {
    IndexDigits(address);
    DigitsOf(PageTableIndices(address), VPage(address));
  }

  lemma DigitsOf(ix: Indices, vp: nat)
    requires InBounds(ix) && vp == VirtualPage(ix)
    ensures Index(vp, 1) == ix.p1 && Index(vp, 2) == ix.p2 && Index(vp, 3) == ix.p3 && Index(vp, 4) == ix.p4
  {
    var a := ix.p4 * 512 + ix.p3;
    var b := a * 512 + ix.p2;
    assert Shift(vp, 0) == vp == b * 512 + ix.p1;
    assert Shift(vp, 1) == b && b / 512 == a && a / 512 == ix.p4;
    assert Shift(vp, 2) == Shift(vp, 1) / 512 == a;
    assert Shift(vp, 3) == Shift(vp, 2) / 512 == ix.p4;
  }

  /** The tables under one root. */
  class AddressSpace {
    const heap: Heap
    const root: nat
    var tables: Tables
    ghost var level: map<nat, nat>
    ghost var parent: map<nat, Slot>

    ghost function Shape(): Tree
      reads this
    {
      Tree(root, tables, level, parent)
    }

    /** The tables form a tree of distinct allocated pages. */
    ghost predicate Valid()
      reads this, heap, heap.linkData, heap.buddyData, heap.usablePages.data, heap.freePages.data
    {
      && this !in heap.linkData && this !in heap.buddyData
      && heap.Valid() && heap.pageCount <= FRAMES && WellFormed(Shape()) && Owned(tables, heap.Free(), heap.Usable())
    }

    /** The pages that are free or hold a table. */
    ghost function Claimed(): (f: Pages)
      requires heap.Shape()
      reads this, heap.freePages.data
    {
      ClaimedPages(heap.Free(), tables)
    }

    ghost function Map(vp: nat): Option<nat>
      reads this
    {
      Lookup(tables, root, vp)
    }

    /** An empty table at an allocated page, as zeroed_pages(1) leaves it. */
    constructor (heap: Heap, page: nat, contents: seq<u64>)
      requires heap.Valid() && heap.pageCount <= FRAMES && page < heap.pageCount
      requires !heap.Free()[page] && heap.Usable()[page]
      requires IsZeroed(contents)
      ensures this.heap == heap && root == page && Valid() && tables.Keys == {page}
      ensures forall vp: nat :: Map(vp) == None && !HugeAt(tables, root, vp)
    {
      this.heap, root := heap, page;
      tables, level, parent := map[page := contents], map[page := 4], map[];
      new;
      forall t: nat, i: nat ensures EntryOk(Shape(), t, i) {}
      forall vp: nat ensures Map(vp) == None && !HugeAt(tables, root, vp) {
        NotHugeZero();
        assert PathTo(tables, root, vp, 3) == None && PathTo(tables, root, vp, 2) == None;
      }
    }

    // ---------------------------------------------------------------- mapping one page

    /** Table c is what entry i of table t points to. */
    ghost predicate IsChild(c: int, t: nat, i: nat)
      reads this
    {
      0 <= c && c in tables && c in level && t in tables && t in level && level[c] + 1 == level[t] &&
      At(tables, t, i) != 0 && !IsHuge(At(tables, t, i)) && Frame(At(tables, t, i)) == c
    }

    /** Link the zeroed page into the empty entry i of table t. */
    method LinkTable(t: nat, i: nat, page: nat, contents: seq<u64>, flags: u64)
      requires WellFormed(Shape()) && TableFlags(flags) && EmptyEntry(Shape(), t, i) && level[t] >= 2
      requires page !in tables && page < FRAMES && IsZeroed(contents)
      modifies this
      ensures WellFormed(Shape()) && tables.Keys == old(tables.Keys) + {page}
      ensures IsChild(page, t, i) && level[t] == old(level)[t]
      ensures SameView(old(tables), tables, root) && SamePaths(old(tables), tables, root, level[t])
      ensures OneChild(old(tables), tables, root, t, i, level[t])
      ensures Filled(old(tables), tables, {flags})
    {
      ghost var tr := Shape();
      assert TableOk(tr, t);
      MakePteFields(page, flags);
      var pte := MakePte(PtrOf(page), flags);
      AddedTableIsTree(tr, t, i, page, pte);
      AddedTableView(tr, t, i, page, pte);
      AddedTableIsChild(tr, t, i, page, pte);
      FilledEntry(tables, t, i, pte, {flags});
      ZeroedIs(contents);
      FilledTable(tables, WithEntry(tables, t, i, pte), page, contents, {flags});
      level, parent := level[page := level[t] - 1], parent[page := Slot(t, i)];
      tables := WithEntry(tables, t, i, pte)[page := contents];
      assert Shape() == WithTable(tr, t, i, page, pte);
    }

    /** Allocate a zeroed page and link it into the empty entry i of table t. */
    method NewChild(t: nat, i: nat, flags: u64) returns (c: int)
      requires Valid() && TableFlags(flags) && EmptyEntry(Shape(), t, i) && level[t] >= 2
      modifies this, heap, heap.linkData, heap.buddyData, heap.freePages.data
      ensures Valid() && Claimed() == old(Claimed())
      ensures c == NIL ==> tables == old(tables) && level == old(level) && NoneIn(heap.Free(), 0, heap.pageCount)
      ensures c != NIL ==> IsChild(c, t, i) && level[t] == old(level)[t] && SameView(old(tables), tables, root)
      ensures c != NIL ==> SamePaths(old(tables), tables, root, old(level)[t])
      ensures c != NIL ==> OneChild(old(tables), tables, root, t, i, old(level)[t])
      ensures Filled(old(tables), tables, {flags})
    {
      ghost var free, before := heap.Free(), tables;
      FilledNothing(tables, {flags});
      var contents;
      c, contents := ZeroedPage(heap);
      if c != NIL {
        LinkTable(t, i, c, contents, flags);
        ClaimedMoves(free, heap.Usable(), before, tables, c);
      }
    }

    /** A step of the walk in map_page and map_2MB_page: the table that entry i of table t points
        to, allocated and linked in if the entry is empty. */
    method ChildTable(t: nat, i: nat, flags: u64) returns (c: int)
      requires Valid() && TableFlags(flags) && i < 512 && t in tables && t in level && level[t] >= 2
      requires !IsHuge(At(tables, t, i))
      modifies this, heap, heap.linkData, heap.buddyData, heap.freePages.data
      ensures Valid() && Claimed() == old(Claimed())
      ensures c == NIL ==> tables == old(tables) && level == old(level) && NoneIn(heap.Free(), 0, heap.pageCount)
      ensures c != NIL ==> IsChild(c, t, i) && level[t] == old(level)[t]
      ensures SameView(old(tables), tables, root) && SamePaths(old(tables), tables, root, old(level)[t])
      ensures OneChild(old(tables), tables, root, t, i, old(level)[t])
      ensures Filled(old(tables), tables, {flags})
    {
      FilledNothing(tables, {flags});
      assert TableOk(Shape(), t) && EntryOk(Shape(), t, i);
      var e := tables[t][i];
      if e != 0 {
        PteAddressIsPtr(e);
        c := PageOf(PteAddress(e));
      } else {
        c := NewChild(t, i, flags);
      }
    }

    /** The walk to level 2 that map_page and map_2MB_page share. */
    method WalkTo2(ghost vp: nat, p4: nat, p3: nat, flags: u64) returns (t2: int)
      requires Valid() && TableFlags(flags) && p4 == Index(vp, 4) && p3 == Index(vp, 3)
      modifies this, heap, heap.linkData, heap.buddyData, heap.freePages.data
      ensures Valid() && Claimed() == old(Claimed()) && SameView(old(tables), tables, root)
      ensures Filled(old(tables), tables, {flags}) && NewTables(old(tables), tables, root, vp, 0)
      ensures t2 == NIL ==> NoneIn(heap.Free(), 0, heap.pageCount)
      ensures t2 != NIL ==> 0 <= t2 && PathTo(tables, root, vp, 2) == Some(t2)
    {
      ghost var before := tables;
      assert TableOk(Shape(), root) && EntryOk(Shape(), root, p4);
      var t3 := ChildTable(root, p4, flags);
      HigherChild(before, tables, root, root, p4, 4, vp);
      if t3 == NIL { return NIL; }
      ghost var middle := tables;
      assert EntryOk(Shape(), t3, p3);
      assert PathTo(tables, root, vp, 4) == Some(root) && PathTo(tables, root, vp, 3) == Some(t3);
      t2 := ChildTable(t3, p3, flags);
      HigherChildren(before, middle, tables, root, root, p4, 4, t3, p3, 3, vp);
      ViewTransitive(before, middle, tables, root);
      FilledTransitive(before, middle, tables, {flags});
    }

    /** Write a leaf into an empty entry. */
    method WriteLeaf(t: nat, i: nat, e: u64)
      requires Valid() && EmptyEntry(Shape(), t, i) && LeafEntry(Shape(), t, e)
      modifies this
      ensures Valid() && Claimed() == old(Claimed()) && tables == WithEntry(old(tables), t, i, e)
    {
      LeafIsTree(Shape(), t, i, e);
      ghost var before := tables;
      tables := WithEntry(tables, t, i, e);
      assert tables.Keys == before.Keys;
    }

    /** The whole walk of map_page, down to the level-1 table. */
    method WalkTo1(ghost vp: nat, p4: nat, p3: nat, p2: nat, flags: u64) returns (t1: int)
      requires Valid() && TableFlags(flags) && vp < VIRTUAL_PAGES && !HugeAt(tables, root, vp)
      requires p4 == Index(vp, 4) && p3 == Index(vp, 3) && p2 == Index(vp, 2)
      modifies this, heap, heap.linkData, heap.buddyData, heap.freePages.data
      ensures Valid() && Claimed() == old(Claimed()) && SameView(old(tables), tables, root)
      ensures Filled(old(tables), tables, {flags}) && NewTables(old(tables), tables, root, vp, 1)
      ensures t1 == NIL ==> NoneIn(heap.Free(), 0, heap.pageCount)
      ensures t1 != NIL ==> 0 <= t1 && PathTo(tables, root, vp, 1) == Some(t1)
    {
      ghost var before := tables;
      var t2 := WalkTo2(vp, p4, p3, flags);
      ghost var middle, tr := tables, Shape();
      NewTablesNone(middle, root, vp, 1);
      NewTablesMore(before, middle, middle, root, vp, 0, vp, 1, 1);
      if t2 == NIL { return NIL; }
      PathLevel(Shape(), vp, 2);
      assert TranslatesAlike(before, middle, root, vp);
      t1 := ChildTable(t2, p2, flags);
      LowestChild(tr, tables, t2, p2, vp);
      NewTablesMore(before, middle, tables, root, vp, 0, vp, 1, 1);
      assert PathTo(tables, root, vp, 2) == Some(t2);
      ViewTransitive(before, middle, tables, root);
      FilledTransitive(before, middle, tables, {flags});
    }

    method MapPage(virtual: u64, kernel: u64, flags: u64) returns (ok: bool)
      requires Valid() && TableFlags(flags) && KernelPtr(kernel) && !HugeAt(tables, root, VPage(virtual))
      modifies this, heap, heap.linkData, heap.buddyData, heap.freePages.data
      ensures Valid() && Claimed() == old(Claimed()) && Filled(old(tables), tables, {flags})
      ensures NewTables(old(tables), tables, root, VPage(virtual), 1)
      ensures ok ==> virtual != 0 && kernel != 0 && virtual % 4096 == 0 && kernel % 4096 == 0
      ensures ok ==> MapsRange(old(tables), tables, root, VPage(virtual), 1, PageOf(kernel))
      ensures ok ==> !HugeAt(tables, root, VPage(virtual))
      ensures !ok ==> SameView(old(tables), tables, root)
      ensures !ok ==> virtual == 0 || kernel == 0 || virtual % 4096 != 0 || kernel % 4096 != 0 || old(Map(VPage(virtual))) != None ||
                      NoneIn(heap.Free(), 0, heap.pageCount)
    {
      ghost var before, vp := tables, VPage(virtual);
      FilledNothing(tables, {flags});
      NewTablesNone(tables, root, vp, 1);
      var ix := PageTableIndices(virtual);
      AddressIndices(virtual);
      if kernel == 0 || kernel % 0x1000 != 0 { return false; }
      if virtual == 0 || virtual % 0x1000 != 0 { return false; }
      var p1 := WalkTo1(vp, ix.p4, ix.p3, ix.p2, flags);
      if p1 == NIL { return false; }
      PathLevel(Shape(), vp, 1);
      assert TranslatesAlike(before, tables, root, vp);
      assert TableOk(Shape(), p1);
      if tables[p1][ix.p1] != 0 { return false; }
      ghost var tr := Shape();
      Aligned4KB(kernel);
      MakePteFields(PageOf(kernel), flags);
      var pte := MakePte(kernel, flags);
      SmallLeafMaps(tr, p1, ix.p1, pte, vp);
      LeafAddsNoTable(tr, p1, ix.p1, pte, vp);
      LeafLookup(tr, p1, ix.p1, pte, vp);
      FilledEntry(tables, p1, ix.p1, pte, {flags});
      WriteLeaf(p1, ix.p1, pte);
      MapsAfterView(before, tr.tables, tables, root, vp, 1, PageOf(kernel));
      NewTablesMore(before, tr.tables, tables, root, vp, 1, vp, 0, 1);
      FilledTransitive(before, tr.tables, tables, {flags});
      return true;
    }

    method Map2MBPage(virtual: u64, kernel: u64, flags: u64) returns (ok: bool)
      requires Valid() && TableFlags(flags) && KernelPtr(kernel)
      modifies this, heap, heap.linkData, heap.buddyData, heap.freePages.data
      ensures Valid() && Claimed() == old(Claimed()) && Filled(old(tables), tables, WithHuge(flags))
      ensures NewTables(old(tables), tables, root, VPage(virtual), 0)
      ensures ok ==> virtual != 0 && kernel != 0 && virtual % 0x20_0000 == 0 && kernel % 0x20_0000 == 0
      ensures ok ==> MapsRange(old(tables), tables, root, VPage(virtual), 512, PageOf(kernel))
      ensures ok ==> HugeAt(tables, root, VPage(virtual))
      ensures !ok ==> SameView(old(tables), tables, root)
      ensures !ok ==> virtual == 0 || kernel == 0 || virtual % 0x20_0000 != 0 || kernel % 0x20_0000 != 0 ||
                      Occupied(old(tables), root, VPage(virtual)) ||
                      NoneIn(heap.Free(), 0, heap.pageCount)
    {
      ghost var before, vp := tables, VPage(virtual);
      FilledNothing(tables, WithHuge(flags));
      NewTablesNone(tables, root, vp, 0);
      var ix := PageTableIndices(virtual);
      AddressIndices(virtual);
      if kernel == 0 || kernel % 0x20_0000 != 0 { return false; }
      if virtual == 0 || virtual % 0x20_0000 != 0 { return false; }
      var p2 := WalkTo2(vp, ix.p4, ix.p3, flags);
      FilledMore(before, tables, {flags}, WithHuge(flags));
      if p2 == NIL { return false; }
      PathLevel(Shape(), vp, 2);
      assert TableOk(Shape(), p2);
      ghost var tr := Shape();
      if tables[p2][ix.p2] != 0 {
        StaysOccupied(before, tables, root, vp);
        return false;
      }
      Aligned2MB(virtual, kernel);
      HugeFlag(flags);
      var hugeFlags: u64 := Or(flags, PTE_HUGE_PAGE);
      MakePteFields(PageOf(kernel), hugeFlags);
      var pte := MakePte(kernel, hugeFlags);
      HugeLeafMaps(tr, p2, ix.p2, pte, vp);
      LeafLookup(tr, p2, ix.p2, pte, vp);
      LeafAddsNoTable(tr, p2, ix.p2, pte, vp);
      FilledEntry(tables, p2, ix.p2, pte, WithHuge(flags));
      WriteLeaf(p2, ix.p2, pte);
      MapsAfterView(before, tr.tables, tables, root, vp, 512, PageOf(kernel));
      NewTablesMore(before, tr.tables, tables, root, vp, 0, vp, 0, 0);
      FilledTransitive(before, tr.tables, tables, WithHuge(flags));
      return true;
    }

    // ---------------------------------------------------------------- mapping a region

    /** Mapping n pages from v to those from k could not go on at vp: with the tables as they were before,
        vp was mapped already, or a table or a page stood where a 2MB page should go; or no page is left
        for a table. */
    ghost predicate Blocked(before: Tables, v: nat, n: nat, k: nat, vp: nat)
      requires heap.Shape()
      reads this, heap.freePages.data
    {
      InTheWay(before, root, v, n, k, vp) || NoneIn(heap.Free(), 0, heap.pageCount)
    }

    /** Map one chunk of a region: 2MB when both addresses are aligned and enough is left. */
    method MapChunk(virtual: u64, kernel: u64, left: nat, flags: u64, ghost vp: nat, ghost k: nat)
      returns (ok: bool, diff: nat)
      requires Valid() && TableFlags(flags) && Mappable(virtual, kernel, 0x1000) && left > 0
      requires vp == VPage(virtual) && k == PageOf(kernel) && (HugeAt(tables, root, vp) ==> HugeFits(vp, k, left))
      modifies this, heap, heap.linkData, heap.buddyData, heap.freePages.data
      ensures Valid() && Claimed() == old(Claimed()) && 1 <= diff <= left
      ensures NewTables(old(tables), tables, root, vp, diff) && diff == ChunkSize(vp, k, left)
      ensures ok && HugeFits(vp, k, left) ==> HugeAt(tables, root, vp)
      ensures Filled(old(tables), tables, WithHuge(flags)) && NewHuge(old(tables), tables, root, vp, left, k)
      ensures ok ==> MapsRange(old(tables), tables, root, vp, diff, k)
      ensures !ok ==> SameView(old(tables), tables, root) && Blocked(old(tables), vp, left, k, vp)
    {
      ghost var before := tables;
      HugeAligned(virtual, kernel, vp, k);
      if virtual % 0x20_0000 == 0 && kernel % 0x20_0000 == 0 && left >= 512 {
        ok := Map2MBPage(virtual, kernel, flags);
        diff := 512;
        NewTablesNone(tables, root, vp, diff);
        NewTablesMore(before, tables, tables, root, vp, 0, vp, diff, diff);
        if ok { NewHugeBlock(before, tables, root, vp, left, k); }
      } else {
        ok := MapPage(virtual, kernel, flags);
        diff := 1;
        FilledMore(before, tables, {flags}, WithHuge(flags));
        if ok { NewHugeSmall(before, tables, root, vp, left, k); }
        assert !ok ==> TranslatesAlike(before, tables, root, vp);
      }
      if !ok { NewHugeNone(before, tables, root, vp, left, k); }
    }

    /** map_region: `done` is the number of pages mapped when it returns, and `next` the virtual
        page after them. */
    method MapRegion(virtual: u64, kernel: u64, count: nat, flags: u64) returns (ok: bool, ghost done: nat, ghost next: nat)
      requires Valid() && TableFlags(flags) && KernelPtr(kernel)
      requires Mappable(virtual, kernel, 0x1000) ==>
                 RegionFits(virtual, kernel, count) && Safe(tables, root, VPage(virtual), count, PageOf(kernel))
      modifies this, heap, heap.linkData, heap.buddyData, heap.freePages.data
      ensures Valid() && Claimed() == old(Claimed()) && done <= count && next == VPage(virtual) + done
      ensures Filled(old(tables), tables, WithHuge(flags))
      ensures virtual == 0 || kernel == 0 || virtual % 4096 != 0 || kernel % 4096 != 0 ==> !ok && tables == old(tables)
      ensures kernel != 0 ==> MapsRange(old(tables), tables, root, VPage(virtual), done, PageOf(kernel))
      ensures kernel != 0 ==> NewHuge(old(tables), tables, root, VPage(virtual), count, PageOf(kernel))
      ensures kernel != 0 ==> BlocksHuge(tables, root, VPage(virtual), count, PageOf(kernel), done)
      ensures NewTables(old(tables), tables, root, VPage(virtual), count)
      ensures ok ==> done == count
      ensures ok && count > 0 && !HugeFits(VPage(virtual), PageOf(kernel), count) ==> !HugeAt(tables, root, VPage(virtual))
      ensures !ok && virtual != 0 && kernel != 0 && virtual % 4096 == 0 && kernel % 4096 == 0 ==>
                done < count && Blocked(old(tables), VPage(virtual), count, PageOf(kernel), next)
    {
      ghost var v, before := VPage(virtual), tables;
      FilledNothing(tables, WithHuge(flags));
      NewTablesNone(tables, root, v, count);
      if kernel == 0 { return false, 0, v; }
      ghost var k := PageOf(kernel);
      MapsNothing(tables, root, v, k);
      NewHugeNone(tables, tables, root, v, count, k);
      if kernel % 0x1000 != 0 { return false, 0, v; }
      if virtual == 0 || virtual % 0x1000 != 0 { return false, 0, v; }
      ghost var h := virtual / 4096 / VIRTUAL_PAGES;
      assert virtual / 4096 == VIRTUAL_PAGES * h + v;
      ok, done, next := MapAligned(virtual / 4096, PageOf(kernel), count, flags, v, h);
      if count > 0 && !HugeFits(v, k, count) { FirstNotHuge(before, tables, root, v, count, k); }
    }

    /** MapChunk at a page-aligned address, given by its page number. */
    method MapChunkAt(page: nat, k: nat, left: nat, flags: u64, ghost vp: nat, ghost h: nat) returns (ok: bool, diff: nat)
      requires Valid() && TableFlags(flags) && left > 0 && (HugeAt(tables, root, vp) ==> HugeFits(vp, k, left))
      requires page == VIRTUAL_PAGES * h + vp && page > 0 && vp < VIRTUAL_PAGES && h < 0x1_0000 && k < FRAMES
      modifies this, heap, heap.linkData, heap.buddyData, heap.freePages.data
      ensures Valid() && Claimed() == old(Claimed()) && 1 <= diff <= left
      ensures NewTables(old(tables), tables, root, vp, diff) && diff == ChunkSize(vp, k, left)
      ensures ok && HugeFits(vp, k, left) ==> HugeAt(tables, root, vp)
      ensures Filled(old(tables), tables, WithHuge(flags)) && NewHuge(old(tables), tables, root, vp, left, k)
      ensures ok ==> MapsRange(old(tables), tables, root, vp, diff, k)
      ensures !ok ==> SameView(old(tables), tables, root) && Blocked(old(tables), vp, left, k, vp)
    {
      PageAddress(page, k, vp, h);
      ok, diff := MapChunk(4096 * page, PtrOf(k), left, flags, vp, k);
    }

    /** MapChunk behind the first `done` pages of a region. */
    method MapNext(page: nat, frame: nat, left: nat, flags: u64, ghost before: Tables, ghost v: nat, ghost done: nat,
                   ghost count: nat, ghost k: nat, ghost next: nat, ghost h: nat)
      returns (ok: bool, diff: nat, ghost more: nat)
      requires Valid() && TableFlags(flags)
      requires Rest(v, count, k, done, next, left, frame)
      requires page == VIRTUAL_PAGES * h + next && page > 0 && h < 0x1_0000
      requires v + count <= VIRTUAL_PAGES && k + count <= FRAMES && Safe(before, root, v, count, k)
      requires MapsRange(before, tables, root, v, done, k) && Filled(before, tables, WithHuge(flags))
      requires NewHuge(before, tables, root, v, count, k) && NewTables(before, tables, root, v, done)
      requires BlocksHuge(tables, root, v, count, k, done)
      modifies this, heap, heap.linkData, heap.buddyData, heap.freePages.data
      ensures Valid() && Claimed() == old(Claimed()) && 1 <= diff <= left
      ensures Filled(before, tables, WithHuge(flags)) && NewHuge(before, tables, root, v, count, k)
      ensures MapsRange(before, tables, root, v, more, k) && BlocksHuge(tables, root, v, count, k, more)
      ensures ok ==> more == done + diff && NewTables(before, tables, root, v, more)
      ensures !ok ==> more == done && NewTables(before, tables, root, v, count) && Blocked(before, v, count, k, next)
    {
      SafeNext(before, tables, root, v, done, count, k, next);
      ghost var middle := tables;
      ok, diff := MapChunkAt(page, frame, left, flags, next, h);
      FilledTransitive(before, middle, tables, WithHuge(flags));
      more := if ok then done + diff else done;
      if ok {
        ChunkMapped(before, middle, tables, root, v, count, k, done, next, left, frame, diff, more);
      } else {
        ChunkFailed(before, middle, tables, root, v, count, k, done, next, left, frame, diff);
      }
    }

    /** The loop of map_region, counted in pages: from page number `first`, which is v beyond the
        bits that the indices ignore. */
    method MapAligned(first: nat, k: nat, count: nat, flags: u64, ghost v: nat, ghost h: nat)
      returns (ok: bool, ghost done: nat, ghost next: nat)
      requires Valid() && TableFlags(flags)
      requires first == VIRTUAL_PAGES * h + v && first > 0 && h < 0x1_0000
      requires v + count <= VIRTUAL_PAGES && Safe(tables, root, v, count, k) && k + count <= FRAMES
      modifies this, heap, heap.linkData, heap.buddyData, heap.freePages.data
      ensures Valid() && Claimed() == old(Claimed()) && done <= count && next == v + done
      ensures Filled(old(tables), tables, WithHuge(flags)) && NewHuge(old(tables), tables, root, v, count, k)
      ensures NewTables(old(tables), tables, root, v, count)
      ensures MapsRange(old(tables), tables, root, v, done, k) && BlocksHuge(tables, root, v, count, k, done)
      ensures ok ==> done == count
      ensures !ok ==> done < count && Blocked(old(tables), v, count, k, next)
    {
      ghost var before := tables;
      MapsNothing(tables, root, v, k);
      FilledNothing(tables, WithHuge(flags));
      NewHugeNone(tables, tables, root, v, count, k);
      NewTablesNone(tables, root, v, 0);
      var mapped := 0;
      done, next := 0, v;
      while mapped < count
        invariant mapped == done <= count && next == v + done && Valid() && Claimed() == old(Claimed())
        invariant MapsRange(before, tables, root, v, done, k) && Filled(before, tables, WithHuge(flags))
        invariant NewHuge(before, tables, root, v, count, k) && NewTables(before, tables, root, v, done)
        invariant BlocksHuge(tables, root, v, count, k, done)
      {
        var res, diff;
        ghost var more;
        res, diff, more := MapNext(first + mapped, k + mapped, count - mapped, flags, before, v, done, count, k, next, h);
        if !res { return false, done, next; }
        mapped := mapped + diff;
        done, next := more, next + diff;
      }
      return true, done, next;
    }
  }

  /** The region lies below the end of the 48-bit space and of the kernel window. */
  predicate RegionFits(virtual: u64, kernel: u64, count: nat)
    requires kernel >= KERNEL_SPACE_BEGIN
  {
    VPage(virtual) + count <= VIRTUAL_PAGES && PageOf(kernel) + count <= FRAMES
  }

  /** The alignment tests of map_region, by page number. */
  lemma HugeAligned(virtual: u64, kernel: u64, vp: nat, k: nat)
    requires Mappable(virtual, kernel, 0x1000) && vp == VPage(virtual) && k == PageOf(kernel)
    ensures virtual % 0x20_0000 == 0 <==> vp % 512 == 0
    ensures kernel % 0x20_0000 == 0 <==> k % 512 == 0
    ensures Mappable(virtual, kernel, 0x20_0000) <==> vp % 512 == 0 && k % 512 == 0
  {
    PageAligned(virtual, virtual / 4096);
    PageAligned(kernel, kernel / 4096);
    var q, h := virtual / 4096, virtual / 4096 / VIRTUAL_PAGES;
    assert q == 512 * (0x800_0000 * h) + vp;
    SameRemainder(q, vp, 0x800_0000 * h);
    assert kernel / 4096 == KERNEL_SPACE_BEGIN / 4096 + k;
    assert KERNEL_SPACE_BEGIN / 4096 == 512 * (KERNEL_SPACE_BEGIN / 0x20_0000);
    SameRemainder(kernel / 4096, k, KERNEL_SPACE_BEGIN / 0x20_0000);
  }

  lemma PageAligned(address: nat, q: nat)
    requires address == 4096 * q
    ensures address % 0x20_0000 == 0 <==> q % 512 == 0
  {
    QuotientUnique(address, 0x20_0000, q / 512, 4096 * (q % 512));
  }

  lemma SameRemainder(a: nat, b: nat, h: nat)
    requires a == 512 * h + b
    ensures a % 512 == b % 512
  {
    QuotientUnique(a, 512, h + b / 512, b % 512);
  }

  /** The address of a page number. */
  lemma PageAddress(page: nat, k: nat, vp: nat, h: nat)
    requires page == VIRTUAL_PAGES * h + vp && page > 0 && vp < VIRTUAL_PAGES && h < 0x1_0000 && k < FRAMES
    ensures 4096 * page < TWO64 && VPage(4096 * page) == vp && PageOf(PtrOf(k)) == k
    ensures Mappable(4096 * page, PtrOf(k), 0x1000)
  {
    QuotientUnique(4096 * page, 4096, page, 0);
    QuotientUnique(page, VIRTUAL_PAGES, h, vp);
    QuotientUnique(PtrOf(k), 4096, KERNEL_SPACE_BEGIN / 4096 + k, 0);
  }

  predicate Mappable(virtual: u64, kernel: u64, size: nat)
    requires size > 0
  {
    virtual != 0 && kernel >= KERNEL_SPACE_BEGIN && virtual % size == 0 && kernel % size == 0
  }

  lemma Aligned4KB(kernel: u64)
    requires kernel >= KERNEL_SPACE_BEGIN && kernel % 0x1000 == 0
    ensures PtrOf(PageOf(kernel)) == kernel
  {
  }

  lemma Aligned2MB(virtual: u64, kernel: u64)
    requires kernel >= KERNEL_SPACE_BEGIN && virtual % 0x20_0000 == 0 && kernel % 0x20_0000 == 0
    ensures VPage(virtual) % 512 == 0 && PageOf(kernel) % 512 == 0 && PageOf(kernel) + 512 <= FRAMES
    ensures PtrOf(PageOf(kernel)) == kernel
  {
    AlignedPage(virtual, virtual / 0x20_0000);
    var k := kernel / 0x20_0000 - KERNEL_SPACE_BEGIN / 0x20_0000;
    QuotientUnique(kernel - KERNEL_SPACE_BEGIN, 4096, 512 * k, 0);
  }

  lemma AlignedPage(virtual: u64, q: nat)
    requires virtual == 0x20_0000 * q
    ensures VPage(virtual) % 512 == 0
  {
    QuotientUnique(virtual, 4096, 512 * q, 0);
    var h, r := q / 0x800_0000, q % 0x800_0000;
    QuotientUnique(512 * q, VIRTUAL_PAGES, h, 512 * r);
  }

  /** A request for one page is granted as long as any page is free. */
  lemma OnePage(f: Pages, k: nat)
    requires k >= 1
    ensures CanHold(f, k, 1) <==> !NoneIn(f, 0, |f|)
  {
    if p: nat, c: nat :| c < k && 1 <= Pow2(c) && FreeRun(f, p, Pow2(c)) { assert f[p]; }
    if x: nat :| x < |f| && f[x] { assert FreeRun(f, x, Pow2(0)); }
  }

  /** A page of 512 zero words. */
  predicate IsZeroed(contents: seq<u64>) {
    |contents| == 512 && forall i | 0 <= i < 512 :: contents[i] == 0
  }

  lemma ZeroedIs(contents: seq<u64>)
    requires IsZeroed(contents)
    ensures var zeroed: seq<u64> := seq(512, _ => 0); contents == zeroed
  {
  }

  /** memset, by words */
  method Memset(buffer: array<u64>, value: u64)
    modifies buffer
    ensures forall i | 0 <= i < buffer.Length :: buffer[i] == value
  {
    var i := 0;
    while i < buffer.Length
      invariant i <= buffer.Length && forall j | 0 <= j < i :: buffer[j] == value
    {
      buffer[i] := value;
      i := i + 1;
    }
  }

  /** zeroed_pages(1): the page that was taken, and its contents. */
  method ZeroedPage(heap: Heap) returns (page: int, contents: seq<u64>)
    requires heap.Valid()
    modifies heap, heap.linkData, heap.buddyData, heap.freePages.data
    ensures heap.Valid() && heap.Usable() == old(heap.Usable()) && NIL <= page < heap.pageCount
    ensures page == NIL ==> heap.Free() == old(heap.Free()) && NoneIn(heap.Free(), 0, heap.pageCount)
    ensures page != NIL ==> old(heap.Free())[page] && heap.Free() == old(heap.Free())[page := false]
    ensures page != NIL ==> IsZeroed(contents)
  {
    page := TakePage(heap);
    if page == NIL { return NIL, []; }
    var memory := new u64[512];
    Memset(memory, 0);
    return page, memory[..];
  }

  method TakePage(heap: Heap) returns (page: int)
    requires heap.Valid()
    modifies heap, heap.linkData, heap.buddyData, heap.freePages.data
    ensures heap.Valid() && heap.Usable() == old(heap.Usable()) && NIL <= page < heap.pageCount
    ensures page == NIL ==> heap.Free() == old(heap.Free()) && NoneIn(heap.Free(), 0, heap.pageCount)
    ensures page != NIL ==> old(heap.Free())[page] && heap.Free() == old(heap.Free())[page := false]
  {
    OnePage(heap.Free(), heap.classCount);
    ghost var f := heap.Free();
    Pow2Monotone(0, heap.classCount);
    var buf := heap.AllocRaw(1, true);
    if buf == Null { return NIL; }
    page := buf.begin;
    assert WithRange(f, page, page + 1, false) == f[page := false];
  }
}
