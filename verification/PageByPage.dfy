/** kern/page_tables.c: map_region, which uses 2MB pages where they fit, against mapping page by page. */
module PageByPage {
  import opened BitSets
  import opened Bits
  import opened Heaps
  import opened Options
  import opened PageEncoding
  import opened PageTables
  import opened PageTree

  /** map_page at a page number. */
  method MapPageAt(space: AddressSpace, page: nat, k: nat, flags: u64, ghost vp: nat, ghost h: nat) returns (ok: bool)
    requires space.Valid() && TableFlags(flags) && !HugeAt(space.tables, space.root, vp)
    requires page == VIRTUAL_PAGES * h + vp && page > 0 && vp < VIRTUAL_PAGES && h < 0x1_0000 && k < FRAMES
    modifies space, space.heap, space.heap.linkData, space.heap.buddyData, space.heap.freePages.data
    ensures space.Valid() && space.Claimed() == old(space.Claimed())
    ensures ok ==> MapsRange(old(space.tables), space.tables, space.root, vp, 1, k)
    ensures !ok ==> SameView(old(space.tables), space.tables, space.root)
    ensures !ok ==> old(space.Map(vp)) != None || NoneIn(space.heap.Free(), 0, space.heap.pageCount)
  {
    PageAddress(page, k, vp, h);
    ok := space.MapPage(4096 * page, PtrOf(k), flags);
  }

  ghost predicate NoHugeIn(tables: Tables, root: nat, v: nat, n: nat) {
    forall vp: nat | v <= vp < v + n :: !HugeAt(tables, root, vp)
  }

  /** Map `count` pages one by one, up to the first failure. */
  method MapPages(space: AddressSpace, first: nat, k: nat, count: nat, flags: u64, ghost v: nat, ghost h: nat)
    returns (ok: bool, done: nat, ghost next: nat)
    requires space.Valid() && TableFlags(flags) && NoHugeIn(space.tables, space.root, v, count)
    requires first == VIRTUAL_PAGES * h + v && first > 0 && h < 0x1_0000
    requires v + count <= VIRTUAL_PAGES && k + count <= FRAMES
    modifies space, space.heap, space.heap.linkData, space.heap.buddyData, space.heap.freePages.data
    ensures space.Valid() && space.Claimed() == old(space.Claimed()) && done <= count
    ensures MapsRange(old(space.tables), space.tables, space.root, v, done, k)
    ensures ok <==> done == count
    ensures next == v + done
    ensures !ok ==> old(space.Map(next)) != None || NoneIn(space.heap.Free(), 0, space.heap.pageCount)
  {
    ghost var before, root := space.tables, space.root;
    MapsNothing(before, root, v, k);
    done, next := 0, v;
    while done < count
      invariant next == v + done <= v + count && space.Valid() && space.Claimed() == old(space.Claimed())
      invariant MapsRange(before, space.tables, root, v, done, k)
    {
      ghost var middle := space.tables;
      var frame := k + done;
      assert MapsAt(before, middle, root, v, done, k, next);
      ok := MapPageAt(space, first + done, frame, flags, next, h);
      if !ok {
        MapsThenView(before, middle, space.tables, root, v, done, k);
        return;
      }
      var more := done + 1;
      MapsAdjacent(before, middle, space.tables, root, v, done, k, next, 1, frame, more);
      done, next := more, next + 1;
    }
    ok := true;
  }

  /** What map_region would do without 2MB pages. */
  method MapRegionByPages(space: AddressSpace, virtual: u64, kernel: u64, count: nat, flags: u64)
    returns (ok: bool, ghost next: nat)
    requires space.Valid() && TableFlags(flags) && Mappable(virtual, kernel, 0x1000) && RegionFits(virtual, kernel, count)
    requires NoHugeIn(space.tables, space.root, VPage(virtual), count)
    modifies space, space.heap, space.heap.linkData, space.heap.buddyData, space.heap.freePages.data
    ensures ok ==> MapsRange(old(space.tables), space.tables, space.root, VPage(virtual), count, PageOf(kernel))
    ensures !ok ==> VPage(virtual) <= next < VPage(virtual) + count
    ensures !ok ==> old(space.Map(next)) != None || NoneIn(space.heap.Free(), 0, space.heap.pageCount)
  {
    ghost var v := VPage(virtual);
    ghost var h := virtual / 4096 / VIRTUAL_PAGES;
    assert virtual / 4096 == VIRTUAL_PAGES * h + v;
    var done;
    ok, done, next := MapPages(space, virtual / 4096, PageOf(kernel), count, flags, v, h);
  }

  /** map_region, with 2MB pages where they fit. */
  method MapRegionMixed(space: AddressSpace, virtual: u64, kernel: u64, count: nat, flags: u64)
    returns (ok: bool, ghost next: nat)
    requires space.Valid() && TableFlags(flags) && Mappable(virtual, kernel, 0x1000) && RegionFits(virtual, kernel, count)
    requires Safe(space.tables, space.root, VPage(virtual), count, PageOf(kernel))
    modifies space, space.heap, space.heap.linkData, space.heap.buddyData, space.heap.freePages.data
    ensures ok ==> MapsRange(old(space.tables), space.tables, space.root, VPage(virtual), count, PageOf(kernel))
    ensures !ok ==> VPage(virtual) <= next < VPage(virtual) + count
    ensures !ok ==> space.Blocked(old(space.tables), VPage(virtual), count, PageOf(kernel), next)
  {
    ghost var done;
    ok, done, next := space.MapRegion(virtual, kernel, count, flags);
  }

  /** What is in the way of a region that another set of tables could map page by page is a table. */
  lemma TableInTheWay(before: Tables, root: nat, other: Tables, after: Tables, otherRoot: nat, v: nat, n: nat, k: nat, next: nat)
    requires Alike(before, root, other, otherRoot) && MapsRange(other, after, otherRoot, v, n, k)
    requires v <= next < v + n <= VIRTUAL_PAGES && InTheWay(before, root, v, n, k, next)
    ensures IsBlock(v, n, k, next) && HasTable(before, root, next)
  {
    assert MapsAt(other, after, otherRoot, v, n, k, next) && AlikeAt(before, root, other, otherRoot, next);
  }

  ghost predicate SeparateSpaces(a: AddressSpace, b: AddressSpace) {
    a != b && Footprint(a.heap) + {a} !! Footprint(b.heap) + {b}
  }

  /** Mapped by map_region, with 2MB pages where they fit, or page by page, a region translates the
      same, in tables that translated alike before.  Short of memory, only one way can fail alone:
      map_region, at a 2MB page that it calls for where a table stands. */
  method MapBothWays(mixed: AddressSpace, paged: AddressSpace, virtual: u64, kernel: u64, count: nat, flags: u64)
    returns (mixedOk: bool, pagedOk: bool, ghost next: nat)
    requires mixed.Valid() && paged.Valid() && SeparateSpaces(mixed, paged)
    requires Alike(mixed.tables, mixed.root, paged.tables, paged.root)
    requires TableFlags(flags) && Mappable(virtual, kernel, 0x1000) && RegionFits(virtual, kernel, count)
    requires Safe(mixed.tables, mixed.root, VPage(virtual), count, PageOf(kernel))
    requires NoHugeIn(paged.tables, paged.root, VPage(virtual), count)
    modifies mixed, mixed.heap, mixed.heap.linkData, mixed.heap.buddyData, mixed.heap.freePages.data
    modifies paged, paged.heap, paged.heap.linkData, paged.heap.buddyData, paged.heap.freePages.data
    ensures mixedOk && pagedOk ==> Alike(mixed.tables, mixed.root, paged.tables, paged.root)
    ensures mixedOk && !pagedOk ==> NoneIn(paged.heap.Free(), 0, paged.heap.pageCount)
    ensures pagedOk && !mixedOk && !NoneIn(mixed.heap.Free(), 0, mixed.heap.pageCount) ==>
              IsBlock(VPage(virtual), count, PageOf(kernel), next) && HasTable(old(mixed.tables), mixed.root, next)
  {
    ghost var before, other, v, k := mixed.tables, paged.tables, VPage(virtual), PageOf(kernel);
    ghost var page;
    mixedOk, next := MapRegionMixed(mixed, virtual, kernel, count, flags);
    pagedOk, page := MapRegionByPages(paged, virtual, kernel, count, flags);
    if mixedOk && pagedOk {
      MappedAlike(before, mixed.tables, mixed.root, other, paged.tables, paged.root, v, count, k);
    } else if mixedOk {
      UnmappedAlike(before, mixed.tables, mixed.root, other, paged.root, v, count, k, page);
    } else if pagedOk && !NoneIn(mixed.heap.Free(), 0, mixed.heap.pageCount) {
      TableInTheWay(before, mixed.root, other, paged.tables, paged.root, v, count, k, next);
    }
  }
}
