/** kern/page_tables.c: destroying the tables under a root, and what that gives back. */
module PageTeardown {
  import opened Bits
  import opened BitSets
  import opened Options
  import opened FreeBlocks
  import opened FreelistLinks
  import opened Heaps
  import opened PageEncoding
  import opened PageTree
  import opened PageTables
  import opened PageQueries

  /** The tables in s are still there, as the tree tr has them. */
  ghost predicate Intact(tr: Tree, tables: Tables, s: set<nat>) {
    forall c: nat | c in s :: c in tr.tables && c in tables && tables[c] == tr.tables[c]
  }

  /** What destroy_table_inner takes apart when it gets past its three early returns. */
  ghost predicate Destroyable(tr: Tree, tables: Tables, t: nat, lvl: nat) {
    t in tr.tables && t in tr.level && tr.level[t] == lvl && Intact(tr, tables, Subtree(tr, t))
  }

  /** The calls that return at once. */
  predicate Skipped(table: int, entry: u64, lvl: nat) {
    table == NIL || IsHuge(entry) || lvl == 0
  }

  /** The tables are in pages that are not free and, unless they are yet to be marked, usable. */
  predicate Held(tables: Tables, free: Pages, usable: Pages, mark: bool) {
    |free| == |usable| && forall t: nat | t in tables :: t < |free| && !free[t] && (mark || usable[t])
  }

  /** The pages that are free, or usable, or will be once the tables are gone. */
  lemma ReleasedMoves(free: Pages, usable: Pages, tables: Tables, t: nat, mark: bool, after: Pages)
    requires Held(tables, free, usable, mark) && t in tables && after == if mark then usable[t := true] else usable
    ensures Held(tables - {t}, free[t := true], after, mark)
    ensures ClaimedPages(free[t := true], tables - {t}) == ClaimedPages(free, tables)
    ensures ClaimedPages(after, tables - {t}) == ClaimedPages(usable, tables)
  {
  }

  /** What the walk keeps: the allocator's invariant, and which pages are or will be free and usable. */
  ghost predicate Keeps(space: AddressSpace, mark: bool, free: Pages, usable: Pages)
    reads space, space.heap, space.heap.linkData, space.heap.buddyData
    reads space.heap.usablePages.data, space.heap.freePages.data
  {
    && space !in space.heap.linkData + space.heap.buddyData && space.heap.Valid()
    && Held(space.tables, space.heap.Free(), space.heap.Usable(), mark)
    && ClaimedPages(space.heap.Free(), space.tables) == free
    && ClaimedPages(space.heap.Usable(), space.tables) == usable
  }

  method FreePage(heap: Heap, t: nat, mark: bool)
    requires heap.Valid() && t < heap.pageCount && !heap.Free()[t] && (mark || heap.Usable()[t])
    modifies heap, heap.linkData, heap.buddyData, heap.freePages.data, heap.usablePages.data
    ensures heap.Valid() && heap.Free() == old(heap.Free())[t := true]
    ensures heap.Usable() == if mark then old(heap.Usable())[t := true] else old(heap.Usable())
  {
    ghost var f, u := heap.Free(), heap.Usable();
    if mark {
      heap.MarkUsability(t, 1, true);
      assert WithRange(u, t, t + 1, true) == u[t := true];
    }
    heap.ReleasePages(t, 1);
    assert WithRange(f, t, t + 1, true) == f[t := true];
  }

  /** The end of the walk: release_pages(table, 1), for a boot loader's table after its page is marked
      usable. */
  method ReleaseTable(space: AddressSpace, t: nat, mark: bool, ghost free: Pages, ghost usable: Pages)
    requires Keeps(space, mark, free, usable) && t in space.tables
    modifies space`tables, space.heap, space.heap.linkData, space.heap.buddyData
    modifies space.heap.freePages.data, space.heap.usablePages.data
    ensures Keeps(space, mark, free, usable) && space.tables == old(space.tables) - {t}
  {
    ghost var f, u, before := space.heap.Free(), space.heap.Usable(), space.tables;
    FreePage(space.heap, t, mark);
    ReleasedMoves(f, u, before, t, mark, space.heap.Usable());
    space.tables := space.tables - {t};
  }

  /** The child that entry i of t points to can be destroyed while the branches before it are gone. */
  lemma ChildDestroyable(tr: Tree, before: Tables, tables: Tables, t: nat, i: nat)
    requires WellFormed(tr) && t in tr.tables && t in tr.level && tr.level[t] >= 2 && i < 512
    requires Intact(tr, before, Subtree(tr, t)) && tables == before - BranchesBefore(tr, t, i)
    ensures t in tables && |tables[t]| == 512 && tables[t][i] == At(tr.tables, t, i)
    ensures var e := At(tr.tables, t, i);
            e != 0 ==> Frame(e) < FRAMES && (!IsHuge(e) ==> Destroyable(tr, tables, Frame(e), tr.level[t] - 1))
  {
    var e := At(tr.tables, t, i);
    assert TableOk(tr, t) && EntryOk(tr, t, i);
    assert t in Subtree(tr, t);
    BranchStep(tr, t, i);
    if e != 0 && !IsHuge(e) {
      forall c: nat | c in Subtree(tr, Frame(e)) ensures c in tr.tables && c in tables && tables[c] == tr.tables[c] {
        ChildBranch(tr, c, t, i);
        assert c in Subtree(tr, t);
      }
    }
  }

  /** pte_address of an entry, as a page number. */
  function ChildPage(entry: u64): (page: int)
    requires entry != 0 ==> Frame(entry) < FRAMES
    ensures page == if entry == 0 then NIL else Frame(entry)
  {
    if entry == 0 then NIL
    else
      PteAddressIsPtr(entry);
      PageOfPtr(Frame(entry));
      PageOf(PteAddress(entry))
  }

  /** The tables left after branch i is gone too. */
  lemma BranchRemoved(tr: Tree, before: Tables, t: nat, i: nat, e: u64)
    requires WellFormed(tr) && t in tr.tables && t in tr.level && tr.level[t] >= 2 && i < 512
    requires e == At(tr.tables, t, i)
    ensures before - BranchesBefore(tr, t, i + 1) ==
            before - BranchesBefore(tr, t, i) - if e != 0 && !IsHuge(e) then Subtree(tr, Frame(e)) else {}
  {
    BranchStep(tr, t, i);
  }

  lemma AllRemoved(tr: Tree, before: Tables, t: nat)
    requires WellFormed(tr) && t in tr.tables && t in tr.level
    ensures before - BranchesBefore(tr, t, 0) == before
    ensures tr.level[t] >= 2 ==> before - BranchesBefore(tr, t, 512) - {t} == before - Subtree(tr, t)
    ensures tr.level[t] == 1 ==> before - {t} == before - Subtree(tr, t)
  {
    AllBranches(tr, t);
  }

  /** destroy_table_inner, or destroy_bb_table_inner if pages are to be marked, for the table at page
      `table`, NIL if the entry was empty. */
  method DestroyInner(space: AddressSpace, table: int, entry: u64, lvl: nat, mark: bool,
                      ghost tr: Tree, ghost free: Pages, ghost usable: Pages)
    requires Keeps(space, mark, free, usable) && table >= NIL && WellFormed(tr)
    requires !Skipped(table, entry, lvl) ==> Destroyable(tr, space.tables, table, lvl)
    modifies space`tables, space.heap, space.heap.linkData, space.heap.buddyData
    modifies space.heap.freePages.data, space.heap.usablePages.data
    ensures Keeps(space, mark, free, usable)
    ensures Skipped(table, entry, lvl) ==> space.tables == old(space.tables)
    ensures !Skipped(table, entry, lvl) ==> space.tables == old(space.tables) - Subtree(tr, table)
    decreases lvl
  {
    if table == NIL { return; }
    if IsHuge(entry) { return; }
    if lvl == 0 { return; }
    ghost var before := space.tables;
    AllRemoved(tr, before, table);
    if lvl > 1 {
      var i := 0;
      while i < ENTRY_COUNT
        invariant i <= ENTRY_COUNT && Keeps(space, mark, free, usable)
        invariant space.tables == before - BranchesBefore(tr, table, i)
      {
        DestroyBranch(space, table, i, lvl, mark, tr, before, free, usable);
        i := i + 1;
      }
    }
    assert table in Subtree(tr, table);
    ReleaseTable(space, table, mark, free, usable);
  }

  /** The loop body: entry i of the table. */
  method DestroyBranch(space: AddressSpace, t: nat, i: nat, lvl: nat, mark: bool,
                       ghost tr: Tree, ghost before: Tables, ghost free: Pages, ghost usable: Pages)
    requires Keeps(space, mark, free, usable)
    requires WellFormed(tr) && Destroyable(tr, before, t, lvl) && lvl >= 2 && i < ENTRY_COUNT
    requires space.tables == before - BranchesBefore(tr, t, i)
    modifies space`tables, space.heap, space.heap.linkData, space.heap.buddyData
    modifies space.heap.freePages.data, space.heap.usablePages.data
    ensures Keeps(space, mark, free, usable)
    ensures space.tables == before - BranchesBefore(tr, t, i + 1)
    decreases lvl, 0
  {
    ChildDestroyable(tr, before, space.tables, t, i);
    var it := space.tables[t][i];
    BranchRemoved(tr, before, t, i, it);
    DestroyInner(space, ChildPage(it), it, lvl - 1, mark, tr, free, usable);
  }

  /** The walk from the root takes every table. */
  method DestroyRoot(space: AddressSpace, mark: bool, ghost free: Pages, ghost usable: Pages)
    requires Keeps(space, mark, free, usable) && WellFormed(space.Shape())
    modifies space`tables, space.heap, space.heap.linkData, space.heap.buddyData
    modifies space.heap.freePages.data, space.heap.usablePages.data
    ensures space.heap.Valid() && space.heap.Free() == free && space.heap.Usable() == usable && space.tables == map[]
  {
    ghost var tr := space.Shape();
    assert TableOk(tr, tr.root);
    NotHugeZero();
    DestroyInner(space, space.root, 0, 4, mark, tr, free, usable);
    forall c: nat | c in tr.tables ensures c in Subtree(tr, tr.root) { AllUnderRoot(tr, c); }
    assert space.tables == map[];
  }

  /** destroy_table: every table page goes back to the allocator, and nothing else does. */
  method DestroyTable(space: AddressSpace)
    requires space.Valid()
    modifies space, space.heap, space.heap.linkData, space.heap.buddyData
    modifies space.heap.freePages.data, space.heap.usablePages.data
    ensures space.heap.Valid() && space.heap.Usable() == old(space.heap.Usable()) && space.tables == map[]
    ensures space.heap.Free() == ClaimedPages(old(space.heap.Free()), old(space.tables))
    ensures forall p: nat | p < space.heap.pageCount ::
              space.heap.Free()[p] == (old(space.heap.Free())[p] || p in old(space.tables))
  {
    ghost var usable := space.heap.Usable();
    assert ClaimedPages(usable, space.tables) == usable;
    DestroyRoot(space, false, space.Claimed(), usable);
  }

  /** destroy_bootboot_table, for tables in pages that the allocator does not know: exactly those pages
      become usable and free. */
  method DestroyBootbootTable(space: AddressSpace)
    requires space.heap.Valid() && WellFormed(space.Shape()) && space !in space.heap.linkData + space.heap.buddyData
    requires Held(space.tables, space.heap.Free(), space.heap.Usable(), true)
    modifies space, space.heap, space.heap.linkData, space.heap.buddyData
    modifies space.heap.freePages.data, space.heap.usablePages.data
    ensures space.heap.Valid() && space.tables == map[]
    ensures space.heap.Free() == ClaimedPages(old(space.heap.Free()), old(space.tables))
    ensures space.heap.Usable() == ClaimedPages(old(space.heap.Usable()), old(space.tables))
    ensures forall p: nat | p < space.heap.pageCount ::
              space.heap.Free()[p] == (old(space.heap.Free())[p] || p in old(space.tables)) &&
              space.heap.Usable()[p] == (old(space.heap.Usable())[p] || p in old(space.tables))
  {
    DestroyRoot(space, true, space.Claimed(), ClaimedPages(space.heap.Usable(), space.tables));
  }

  // ---------------------------------------------------------------- a table's whole life

  /** The arguments of one call of map_region. */
  datatype Region = Region(virtual: u64, kernel: u64, count: nat, flags: u64)

  predicate MappableRegion(r: Region) {
    Mappable(r.virtual, r.kernel, 0x1000)
  }

  predicate InRange(r: Region) {
    KernelPtr(r.kernel) && TableFlags(r.flags) && (MappableRegion(r) ==> RegionFits(r.virtual, r.kernel, r.count))
  }

  /** Mapping the region uses a 2MB page at virtual page b, if it gets there. */
  predicate HasBlock(r: Region, b: nat) {
    MappableRegion(r) && IsBlock(VPage(r.virtual), r.count, PageOf(r.kernel), b)
  }

  /** Region s touches block b of region r. */
  predicate Touches(r: Region, s: Region, b: nat) {
    HasBlock(r, b) && s.count > 0 && b < VPage(s.virtual) + s.count && VPage(s.virtual) < b + 512
  }

  /** Region s takes no 2MB page of region r for a table: what it touches it calls for as a 2MB page too,
      or both regions have a page in front of it, where mapping s ends.  Regions that are disjoint
      and repeated ones are such. */
  ghost predicate Clear(r: Region, s: Region) {
    MappableRegion(s) ==>
      forall b: nat | Touches(r, s, b) :: HasBlock(s, b) || (VPage(r.virtual) < b && VPage(s.virtual) < b)
  }

  /** The condition is exact: once r is mapped where nothing was, map_region takes no 2MB page for a
      table when asked for s if and only if s is clear of r. */
  lemma ClearIsExact(before: Tables, after: Tables, root: nat, r: Region, s: Region)
    requires MappableRegion(r) && MappableRegion(s) && InRange(r) && InRange(s)
    requires forall vp: nat | vp < VIRTUAL_PAGES :: Lookup(before, root, vp) == None
    requires MapsRange(before, after, root, VPage(r.virtual), r.count, PageOf(r.kernel))
    requires NewHuge(before, after, root, VPage(r.virtual), r.count, PageOf(r.kernel))
    requires BlocksHuge(after, root, VPage(r.virtual), r.count, PageOf(r.kernel), r.count)
    ensures Safe(after, root, VPage(s.virtual), s.count, PageOf(s.kernel)) <==> Clear(r, s)
  {
    forall vp: nat | vp < VIRTUAL_PAGES ensures !HugeAt(before, root, vp) {
      assert Lookup(before, root, vp) == None;
    }
    AccountedMore(before, after, root, [], r, r.count);
    assert [] + [r] == [r];
    if Clear(r, s) { AccountedSafe(after, root, [r], s); }
    if Safe(after, root, VPage(s.virtual), s.count, PageOf(s.kernel)) {
      forall b: nat | Touches(r, s, b) ensures HasBlock(s, b) || (VPage(r.virtual) < b && VPage(s.virtual) < b) {
        SafeLeavesBlock(before, after, root, r, s, b);
      }
    }
  }

  lemma SafeLeavesBlock(before: Tables, after: Tables, root: nat, r: Region, s: Region, b: nat)
    requires MappableRegion(r) && MappableRegion(s) && InRange(r) && InRange(s) && Touches(r, s, b)
    requires forall vp: nat | vp < VIRTUAL_PAGES :: Lookup(before, root, vp) == None
    requires MapsRange(before, after, root, VPage(r.virtual), r.count, PageOf(r.kernel))
    requires BlocksHuge(after, root, VPage(r.virtual), r.count, PageOf(r.kernel), r.count)
    requires Safe(after, root, VPage(s.virtual), s.count, PageOf(s.kernel))
    ensures HasBlock(s, b) || (VPage(r.virtual) < b && VPage(s.virtual) < b)
  {
    var v := VPage(s.virtual);
    var x := if v < b then b else v;
    assert HugeAt(after, root, b);
    HugeCovers(after, root, b, x);
    if MappedBefore(after, root, v, x) {
      var y: nat :| v <= y < x && Lookup(after, root, y) != None;
      assert Lookup(before, root, y) == None;
      assert MapsAt(before, after, root, VPage(r.virtual), r.count, PageOf(r.kernel), y);
    } else {
      assert IsBlock(v, s.count, PageOf(s.kernel), x);
    }
  }

  lemma DisjointIsClear(r: Region, s: Region)
    requires VPage(r.virtual) + r.count <= VPage(s.virtual) || VPage(s.virtual) + s.count <= VPage(r.virtual)
    ensures Clear(r, s)
  {
  }

  lemma RepeatedIsClear(r: Region)
    ensures Clear(r, r)
  {
  }

  /** A region at the same addresses, longer or shorter, may follow unless it ends inside a 2MB page with
      which the first one starts. */
  lemma RepetitionIsClear(r: Region, s: Region)
    requires s.virtual == r.virtual && s.kernel == r.kernel
    ensures Clear(r, s) <==> !(HasBlock(r, VPage(r.virtual)) && 0 < s.count < 512)
  {
    var v := VPage(r.virtual);
    if HasBlock(r, v) && 0 < s.count < 512 {
      assert Touches(r, s, v) && !HasBlock(s, v);
    } else if MappableRegion(s) {
      forall b: nat | Touches(r, s, b) ensures HasBlock(s, b) || (v < b && VPage(s.virtual) < b) {}
    }
  }

  ghost predicate AllClear(past: seq<Region>, s: Region) {
    forall r | r in past :: Clear(r, s)
  }

  /** The calls of map_region that a root is built with: none takes a 2MB page of an earlier one for a
      table. */
  ghost predicate Buildable(regions: seq<Region>) {
    forall i | 0 <= i < |regions| :: InRange(regions[i]) && AllClear(regions[..i], regions[i])
  }

  lemma BuildableAt(regions: seq<Region>, i: nat)
    requires Buildable(regions) && i < |regions|
    ensures InRange(regions[i]) && AllClear(regions[..i], regions[i])
    ensures regions[..i + 1] == regions[..i] + [regions[i]]
  {
  }

  ghost predicate MappedUpTo(tables: Tables, root: nat, v: nat, b: nat) {
    forall x: nat | v <= x < b :: Lookup(tables, root, x) != None
  }

  /** Every 2MB page comes from a region mapped before, whose pages in front of it are mapped. */
  ghost predicate Accounted(tables: Tables, root: nat, past: seq<Region>) {
    forall vp: nat | vp < VIRTUAL_PAGES && HugeAt(tables, root, vp) :: FromRegion(tables, root, past, vp)
  }

  ghost predicate FromRegion(tables: Tables, root: nat, past: seq<Region>, vp: nat) {
    exists r, b: nat :: r in past && IsFrom(tables, root, r, b, vp)
  }

  ghost predicate IsFrom(tables: Tables, root: nat, r: Region, b: nat, vp: nat) {
    HasBlock(r, b) && b <= vp < b + 512 && MappedUpTo(tables, root, VPage(r.virtual), b)
  }

  lemma StaysFrom(before: Tables, after: Tables, root: nat, v: nat, n: nat, k: nat, r: Region, b: nat, vp: nat)
    requires IsFrom(before, root, r, b, vp) && MapsRange(before, after, root, v, n, k) && vp < VIRTUAL_PAGES
    ensures IsFrom(after, root, r, b, vp)
  {
    forall x: nat | VPage(r.virtual) <= x < b ensures Lookup(after, root, x) != None {
      assert MapsAt(before, after, root, v, n, k, x);
    }
  }

  /** A new 2MB page lies behind pages of its region that are mapped. */
  lemma NewIsFrom(before: Tables, after: Tables, root: nat, done: nat, r: Region, vp: nat)
    requires MappableRegion(r) && MapsRange(before, after, root, VPage(r.virtual), done, PageOf(r.kernel))
    requires NewHugeAt(before, after, root, VPage(r.virtual), r.count, PageOf(r.kernel), vp)
    requires vp < VIRTUAL_PAGES && HugeAt(after, root, vp) && !HugeAt(before, root, vp)
    ensures exists b: nat :: IsFrom(after, root, r, b, vp)
  {
    var v, k := VPage(r.virtual), PageOf(r.kernel);
    var b: nat :| IsBlock(v, r.count, k, b) && b <= vp < b + 512;
    assert MapsAt(before, after, root, v, done, k, vp);
    forall x: nat | v <= x < b ensures Lookup(after, root, x) != None {
      assert MapsAt(before, after, root, v, done, k, x);
    }
    assert IsFrom(after, root, r, b, vp);
  }

  lemma AccountedMore(before: Tables, after: Tables, root: nat, past: seq<Region>, r: Region, done: nat)
    requires Accounted(before, root, past)
    requires MappableRegion(r) ==> NewHuge(before, after, root, VPage(r.virtual), r.count, PageOf(r.kernel))
    requires MappableRegion(r) ==> MapsRange(before, after, root, VPage(r.virtual), done, PageOf(r.kernel))
    requires !MappableRegion(r) ==> after == before
    ensures Accounted(after, root, past + [r])
  {
    forall vp: nat | vp < VIRTUAL_PAGES && HugeAt(after, root, vp) ensures FromRegion(after, root, past + [r], vp) {
      if HugeAt(before, root, vp) {
        assert FromRegion(before, root, past, vp);
        var q, b: nat :| q in past && IsFrom(before, root, q, b, vp);
        if MappableRegion(r) { StaysFrom(before, after, root, VPage(r.virtual), done, PageOf(r.kernel), q, b, vp); }
        assert q in past + [r] && IsFrom(after, root, q, b, vp);
      } else {
        assert NewHugeAt(before, after, root, VPage(r.virtual), r.count, PageOf(r.kernel), vp);
        NewIsFrom(before, after, root, done, r, vp);
        var b: nat :| IsFrom(after, root, r, b, vp);
        assert r in past + [r];
      }
    }
  }

  /** A region that is clear of the earlier ones meets a 2MB page only where it calls for one, or behind
      a page that is mapped. */
  lemma AccountedSafe(tables: Tables, root: nat, past: seq<Region>, s: Region)
    requires Accounted(tables, root, past) && MappableRegion(s) && InRange(s)
    requires AllClear(past, s)
    ensures Safe(tables, root, VPage(s.virtual), s.count, PageOf(s.kernel))
  {
    var v, n, k := VPage(s.virtual), s.count, PageOf(s.kernel);
    forall vp: nat | v <= vp < v + n && HugeAt(tables, root, vp)
      ensures IsBlock(v, n, k, vp) || MappedBefore(tables, root, v, vp)
    {
      assert FromRegion(tables, root, past, vp);
      var r, b: nat :| r in past && IsFrom(tables, root, r, b, vp);
      assert Clear(r, s) && Touches(r, s, b);
      if HasBlock(s, b) {
        HugeCovers(tables, root, b, vp);
      } else {
        assert Lookup(tables, root, b - 1) != None && v <= b - 1 < vp;
      }
    }
  }

  /** One call of map_region, successful or not. */
  method MapOne(space: AddressSpace, r: Region, ghost past: seq<Region>) returns (ok: bool)
    requires space.Valid() && InRange(r)
    requires Accounted(space.tables, space.root, past) && AllClear(past, r)
    modifies space, space.heap, space.heap.linkData, space.heap.buddyData, space.heap.freePages.data
    ensures space.Valid() && space.Claimed() == old(space.Claimed())
    ensures Accounted(space.tables, space.root, past + [r])
  {
    ghost var before := space.tables;
    if MappableRegion(r) { AccountedSafe(before, space.root, past, r); }
    ghost var done, next;
    ok, done, next := space.MapRegion(r.virtual, r.kernel, r.count, r.flags);
    AccountedMore(before, space.tables, space.root, past, r, done);
  }

  /** Any map_region calls, successful or failed. */
  method MapAll(space: AddressSpace, regions: seq<Region>)
    requires space.Valid()
    requires forall vp: nat :: !HugeAt(space.tables, space.root, vp)
    requires Buildable(regions)
    modifies space, space.heap, space.heap.linkData, space.heap.buddyData, space.heap.freePages.data
    ensures space.Valid() && space.Claimed() == old(space.Claimed()) && space.heap.Usable() == old(space.heap.Usable())
  {
    var i := 0;
    while i < |regions|
      invariant i <= |regions| && space.Valid() && space.Claimed() == old(space.Claimed())
      invariant Accounted(space.tables, space.root, regions[..i])
    {
      BuildableAt(regions, i);
      var ok := MapOne(space, regions[i], regions[..i]);
      i := i + 1;
    }
  }

  /** Conservation across the allocator and the page tables: a root from zeroed_pages(1), any
      successful or failed map_region calls, and destroy_table leave the free pages as they were. */
  method BuildAndDestroy(heap: Heap, regions: seq<Region>) returns (built: bool)
    requires heap.Valid() && heap.pageCount <= FRAMES
    requires Buildable(regions)
    modifies heap, heap.linkData, heap.buddyData, heap.freePages.data, heap.usablePages.data
    ensures heap.Valid() && heap.Free() == old(heap.Free()) && heap.Usable() == old(heap.Usable())
    ensures built <==> !NoneIn(old(heap.Free()), 0, heap.pageCount)
  {
    var page, contents := ZeroedPage(heap);
    if page == NIL { return false; }
    var space := new AddressSpace(heap, page, contents);
    assert space.Claimed() == old(heap.Free());
    MapAll(space, regions);
    DestroyTable(space);
    return true;
  }
}
