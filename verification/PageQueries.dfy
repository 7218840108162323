/** kern/page_tables.c: translating an address, measuring a physically contiguous region, and
    copying a mapping from one set of tables to another. */
module PageQueries {
  import opened Bits
  import opened Options
  import opened PageEncoding
  import opened PageTree
  import opened PageTables

  // ---------------------------------------------------------------- translate

  /** The pointer that translate returns: a page without a leaf gives the bare offset when a table
      of the last level covers it, and null otherwise. */
  function Translation(tables: Tables, root: nat, virtual: u64): nat {
    match Lookup(tables, root, VPage(virtual))
    case Some(frame) => KERNEL_SPACE_BEGIN + 4096 * frame + virtual % 4096
    case None => if PathTo(tables, root, VPage(virtual), 1).Some? then virtual % 4096 else 0
  }

  /** The index that the walk takes from an address at level l, in words of its bits. */
  lemma IndexOfAddress(address: u64)
    ensures var vp := VPage(address);
            Index(vp, 4) == address / 0x80_0000_0000 % 512 && Index(vp, 3) == address / 0x4000_0000 % 512 &&
            Index(vp, 2) == address / 0x20_0000 % 512 && Index(vp, 1) == address / 0x1000 % 512
  {
    AddressIndices(address);
  }

  /** An entry of an upper level that points to a table, not to a huge page. */
  predicate IsTable(e: u64) {
    e != 0 && e / 0x80 % 2 == 0
  }

  lemma {:induction false} BitIsOdd(v: nat, k: nat)
    ensures Bit(v, k) <==> Shr(v, k) % 2 == 1
  {
    if k > 0 { BitIsOdd(v / 2, k - 1); }
  }

  lemma TableIsNotHuge(e: u64)
    ensures IsHuge(e) <==> e / 0x80 % 2 == 1
  {
    HugeIsBit7(e);
    BitIsOdd(e, 7);
    ShrIsDivision(e, 7);
    Constants();
  }

  /** The walk from the root, entry by entry: bits 39 to 47 of the address choose the entry of the
      root, then bits 30, 21 and 12 on; bit 7 in the third entry ends the walk at a 2MB page. */
  lemma WalkIs(tables: Tables, root: nat, address: u64, e4: u64, e3: u64, e2: u64, e1: u64)
    requires e4 == At(tables, root, address / 0x80_0000_0000 % 512)
    requires e3 == At(tables, Frame(e4), address / 0x4000_0000 % 512)
    requires e2 == At(tables, Frame(e3), address / 0x20_0000 % 512)
    requires e1 == At(tables, Frame(e2), address / 0x1000 % 512)
    ensures Lookup(tables, root, VPage(address)) ==
            if !IsTable(e4) || !IsTable(e3) || e2 == 0 then None
            else if !IsTable(e2) then Some(e2 / 4096 % 0x100_0000_0000 + address / 4096 % 512)
            else if e1 == 0 then None
            else Some(e1 / 4096 % 0x100_0000_0000)
  {
    var vp := VPage(address);
    IndexOfAddress(address);
    TableIsNotHuge(0);
    TableIsNotHuge(e4);
    TableIsNotHuge(e3);
    TableIsNotHuge(e2);
    assert PathTo(tables, root, vp, 4) == Some(root);
    assert PathTo(tables, root, vp, 3) == if IsTable(e4) then Some(Frame(e4)) else None;
    assert PathTo(tables, root, vp, 2) == if IsTable(e4) && IsTable(e3) then Some(Frame(e3)) else None;
    assert PathTo(tables, root, vp, 1) == if IsTable(e4) && IsTable(e3) && IsTable(e2) then Some(Frame(e2)) else None;
  }

  /** In this tree null is the answer exactly when the address is unmapped. */
  predicate NullMeans(tables: Tables, root: nat, virtual: u64) {
    Translation(tables, root, virtual) == 0 <==> Lookup(tables, root, VPage(virtual)) == None
  }

  /** An unmapped address that is not page aligned gets null exactly when no table of the last level
      covers it. */
  lemma NullInTree(tables: Tables, root: nat, virtual: u64)
    ensures virtual % 4096 == 0 || Lookup(tables, root, VPage(virtual)) != None ==> NullMeans(tables, root, virtual)
    ensures virtual % 4096 != 0 && Lookup(tables, root, VPage(virtual)) == None ==>
              (NullMeans(tables, root, virtual) <==> PathTo(tables, root, VPage(virtual), 1) == None)
  {
  }

  lemma ByteAddress(virtual: u64, d: nat, j: nat, o: nat, v: nat)
    requires virtual % 4096 == 0 && v == VPage(virtual) && d == 4096 * j + o && o < 4096 && v + j < VIRTUAL_PAGES
    ensures virtual + d < TWO64 && VPage(virtual + d) == v + j && (virtual + d) % 4096 == o
  {
    var q, h := virtual / 4096, virtual / 4096 / VIRTUAL_PAGES;
    assert q == VIRTUAL_PAGES * h + v && virtual == 4096 * q;
    QuotientUnique(virtual + d, 4096, q + j, o);
    QuotientUnique(q + j, VIRTUAL_PAGES, h, v + j);
  }

  /** After map_region has succeeded, byte d of the range translates to kernel + d. */
  lemma RegionTranslates(before: Tables, after: Tables, root: nat, virtual: u64, kernel: u64, count: nat, d: nat)
    requires Mappable(virtual, kernel, 0x1000) && VPage(virtual) + count <= VIRTUAL_PAGES && d < 4096 * count
    requires MapsRange(before, after, root, VPage(virtual), count, PageOf(kernel))
    ensures virtual + d < TWO64 && Translation(after, root, virtual + d) == kernel + d
  {
    var v, j, o := VPage(virtual), d / 4096, d % 4096;
    ByteAddress(virtual, d, j, o, v);
    assert MapsAt(before, after, root, v, count, PageOf(kernel), v + j);
    Aligned4KB(kernel);
  }

  /** All other page-aligned addresses translate as before. */
  lemma OthersTranslateAsBefore(before: Tables, after: Tables, root: nat, v: nat, n: nat, k: nat, address: u64)
    requires MapsRange(before, after, root, v, n, k) && address % 4096 == 0
    requires !(v <= VPage(address) < v + n)
    ensures Translation(after, root, address) == Translation(before, root, address)
  {
    assert MapsAt(before, after, root, v, n, k, VPage(address));
  }

  /** The walk to vp reaches table t of level l, and finds its entry empty. */
  predicate EndsAt(tr: Tree, vp: nat, t: nat, l: nat) {
    1 <= l <= 4 && EmptyEntry(tr, t, Index(vp, l)) && tr.level[t] == l && PathTo(tr.tables, tr.root, vp, l) == Some(t)
  }

  /** With one more table the walk gets one level further. */
  lemma OneTableMore(tr: Tree, vp: nat, t: nat, l: nat, page: nat) returns (tr': Tree)
    requires WellFormed(tr) && EndsAt(tr, vp, t, l) && l >= 2 && page !in tr.tables && page < FRAMES
    ensures WellFormed(tr') && EndsAt(tr', vp, page, l - 1) && tr'.tables.Keys == tr.tables.Keys + {page}
  {
    var e, i := MakePte(PtrOf(page), 1), Index(vp, l);
    assert And(1, PTE_ADDRESS) == 0 && And(1, PTE_HUGE_PAGE) == 0;
    MakePteFields(page, 1);
    tr' := WithTable(tr, t, i, page, e);
    AddedTableIsTree(tr, t, i, page, e);
    AddedTableChanges(tr, t, i, page, e);
    PathKept(tr, tr'.tables, t, i, vp, l);
    assert At(tr'.tables, t, i) == e;
  }

  lemma RootAlone(vp: nat) returns (tr: Tree)
    ensures WellFormed(tr) && EndsAt(tr, vp, 1, 4) && tr.tables.Keys == {1}
  {
    var zeroed: seq<u64> := seq(512, _ => 0);
    tr := Tree(1, map[1 := zeroed], map[1 := 4], map[]);
    forall t: nat, i: nat ensures EntryOk(tr, t, i) {}
  }

  lemma NoLeafAtEnd(tr: Tree, vp: nat, t: nat)
    requires WellFormed(tr) && EndsAt(tr, vp, t, 1)
    ensures Lookup(tr.tables, tr.root, vp) == None
  {
    NotHugeZero();
    assert !HugeAt(tr.tables, tr.root, vp);
  }

  /** A null test can miss any unmapped page: with a table of the last level and no leaf in it, the
      address translates to its offset. */
  lemma UnmappedIsNotNull(virtual: u64) returns (tr: Tree)
    ensures WellFormed(tr) && Lookup(tr.tables, tr.root, VPage(virtual)) == None
    ensures Translation(tr.tables, tr.root, virtual) == virtual % 4096
  {
    var vp := VPage(virtual);
    var t4 := RootAlone(vp);
    var t3 := OneTableMore(t4, vp, 1, 4, 2);
    var t2 := OneTableMore(t3, vp, 2, 3, 3);
    tr := OneTableMore(t2, vp, 3, 2, 4);
    NoLeafAtEnd(tr, vp, 4);
  }

  /** Null means unmapped, whatever the tables, exactly for page-aligned addresses. */
  lemma NullMeansUnmapped(virtual: u64)
    ensures (forall tr: Tree | WellFormed(tr) :: NullMeans(tr.tables, tr.root, virtual)) <==> virtual % 4096 == 0
  {
    if virtual % 4096 == 0 {
      forall tr: Tree | WellFormed(tr) ensures NullMeans(tr.tables, tr.root, virtual) {
        NullInTree(tr.tables, tr.root, virtual);
      }
    } else {
      var tr := UnmappedIsNotNull(virtual);
      assert !NullMeans(tr.tables, tr.root, virtual);
    }
  }

  /** pte_address of entry i of table t. */
  method Follow(space: AddressSpace, t: nat, i: nat) returns (e: u64, ptr: nat)
    requires WellFormed(space.Shape()) && t in space.tables && i < 512
    ensures e == At(space.tables, t, i)
    ensures e == 0 ==> ptr == 0
    ensures e != 0 ==> Frame(e) < FRAMES && ptr == PtrOf(Frame(e)) && PageOf(ptr) == Frame(e)
  {
    assert TableOk(space.Shape(), t) && EntryOk(space.Shape(), t, i);
    e := space.tables[t][i];
    if e != 0 { PteAddressIsPtr(e); }
    ptr := PteAddress(e);
    if e != 0 { PageOfPtr(Frame(e)); }
  }

  lemma PageOfPtr(page: nat)
    requires page < FRAMES
    ensures PageOf(PtrOf(page)) == page
  {
    QuotientUnique(PtrOf(page), 4096, KERNEL_SPACE_BEGIN / 4096 + page, 0);
  }

  method Translate(space: AddressSpace, virtual: u64) returns (ptr: nat)
    requires WellFormed(space.Shape())
    ensures ptr == Translation(space.tables, space.root, virtual)
  {
    ghost var tables, root, vp := space.tables, space.root, VPage(virtual);
    NotHugeZero();
    var ix := PageTableIndices(virtual);
    AddressIndices(virtual);
    assert TableOk(space.Shape(), root);
    var e4, p3 := Follow(space, space.root, ix.p4);
    assert EntryOk(space.Shape(), root, ix.p4) && PathTo(tables, root, vp, 4) == Some(root);
    if p3 == 0 {
      assert PathTo(tables, root, vp, 3) == None && PathTo(tables, root, vp, 2) == None;
      return 0;
    }
    assert PathTo(tables, root, vp, 3) == Some(PageOf(p3));
    var e3, p2 := Follow(space, PageOf(p3), ix.p3);
    assert EntryOk(space.Shape(), PageOf(p3), ix.p3);
    if p2 == 0 {
      assert PathTo(tables, root, vp, 2) == None;
      return 0;
    }
    assert PathTo(tables, root, vp, 2) == Some(PageOf(p2));
    var e2, page := Follow(space, PageOf(p2), ix.p2);
    if page == 0 { return 0; }
    if IsHuge(e2) { return page + 4096 * ix.p1 + ix.p0; }
    assert EntryOk(space.Shape(), PageOf(p2), ix.p2);
    assert PathTo(tables, root, vp, 1) == Some(PageOf(page));
    var e1, leaf := Follow(space, PageOf(page), ix.p1);
    return leaf + ix.p0;
  }

  // ---------------------------------------------------------------- region_size

  /** The n virtual pages from v, wrapping at the end of the 48-bit space, are mapped to the
      physical pages from k. */
  ghost predicate Contiguous(tables: Tables, root: nat, v: nat, n: nat, k: nat) {
    forall j: nat | j < n :: LeadsTo(tables, root, v, k, j)
  }

  predicate LeadsTo(tables: Tables, root: nat, v: nat, k: nat, j: nat) {
    Lookup(tables, root, (v + j) % VIRTUAL_PAGES) == Some(k + j)
  }

  lemma ContiguousStep(tables: Tables, root: nat, v: nat, n: nat, k: nat)
    requires Contiguous(tables, root, v, n, k) && LeadsTo(tables, root, v, k, n)
    ensures Contiguous(tables, root, v, n + 1, k)
  {
    forall j: nat | j < n + 1 ensures LeadsTo(tables, root, v, k, j) {
      if j == n {}
    }
  }

  function NextPage(address: u64): u64 {
    (address + 4096) % TWO64
  }

  lemma NextVPage(address: u64, v: nat, j: nat)
    requires address % 4096 == 0 && VPage(address) == (v + j) % VIRTUAL_PAGES
    ensures NextPage(address) % 4096 == 0 && VPage(NextPage(address)) == (v + (j + 1)) % VIRTUAL_PAGES
  {
    var q, h, h' := address / 4096, address / 4096 / VIRTUAL_PAGES, (v + j) / VIRTUAL_PAGES;
    var x := (v + j) % VIRTUAL_PAGES;
    assert q == VIRTUAL_PAGES * h + x && v + j == VIRTUAL_PAGES * h' + x;
    if x + 1 < VIRTUAL_PAGES {
      QuotientUnique(v + j + 1, VIRTUAL_PAGES, h', x + 1);
      QuotientUnique(q + 1, VIRTUAL_PAGES, h, x + 1);
    } else {
      QuotientUnique(v + j + 1, VIRTUAL_PAGES, h' + 1, 0);
      QuotientUnique(q + 1, VIRTUAL_PAGES, h + 1, 0);
    }
  }

  /** The pointer to page n, which wraps to null after the last page of the window. */
  function PtrWrapped(n: nat): u64
    requires n <= FRAMES
  {
    (KERNEL_SPACE_BEGIN + 4096 * n) % TWO64
  }

  lemma PtrWrappedStep(n: nat)
    requires n < FRAMES
    ensures PtrWrapped(n) == PtrOf(n) && PtrOf(n) % 4096 == 0 && (PtrOf(n) + 4096) % TWO64 == PtrWrapped(n + 1)
  {
  }

  /** The comparison in the loop of region_size tells whether page j continues the region. */
  lemma Continues(tr: Tree, v: nat, k: nat, j: nat, virt: u64, addr: nat)
    requires WellFormed(tr) && virt % 4096 == 0 && VPage(virt) == (v + j) % VIRTUAL_PAGES && k + j <= FRAMES
    requires addr == Translation(tr.tables, tr.root, virt)
    ensures addr != 0 && addr == PtrWrapped(k + j) <==> LeadsTo(tr.tables, tr.root, v, k, j)
    ensures LeadsTo(tr.tables, tr.root, v, k, j) ==> k + j < FRAMES
  {
    var vp := VPage(virt);
    match Lookup(tr.tables, tr.root, vp)
    case None =>
    case Some(frame) =>
      LookupInRange(tr, vp);
      SamePtr(frame, k + j);
  }

  lemma SamePtr(frame: nat, n: nat)
    requires frame < FRAMES && n <= FRAMES
    ensures KERNEL_SPACE_BEGIN + 4096 * frame == PtrWrapped(n) <==> frame == n
  {
  }

  lemma SmallMod(v: nat)
    requires v < VIRTUAL_PAGES
    ensures (v + 0) % VIRTUAL_PAGES == v
  {
  }

  lemma FirstPage(tr: Tree, virtual: u64, v: nat)
    requires WellFormed(tr) && virtual % 4096 == 0 && v == VPage(virtual)
    ensures v == (v + 0) % VIRTUAL_PAGES
    ensures match Lookup(tr.tables, tr.root, v)
            case None => Translation(tr.tables, tr.root, virtual) == 0
            case Some(k) => k < FRAMES && Translation(tr.tables, tr.root, virtual) == PtrWrapped(k) != 0 &&
                            LeadsTo(tr.tables, tr.root, v, k, 0)
  {
    SmallMod(v);
    if Lookup(tr.tables, tr.root, v).Some? {
      LookupInRange(tr, v);
      PtrWrappedStep(Lookup(tr.tables, tr.root, v).value);
    }
  }

  /** j pages further on, on 64 bits. */
  function Advance(address: u64, j: nat): u64 {
    if j == 0 then address else NextPage(Advance(address, j - 1))
  }

  lemma {:induction false} AdvanceIs(address: u64, j: nat)
    ensures Advance(address, j) == (address + 4096 * j) % TWO64
  {
    if j > 0 {
      AdvanceIs(address, j - 1);
      var x := address + 4096 * (j - 1);
      NextPageWraps(Advance(address, j - 1), x / TWO64, x, x + 4096);
    }
  }

  lemma NextPageWraps(r: u64, h: nat, x: nat, y: nat)
    requires h == x / TWO64 && r == x % TWO64 && y == x + 4096
    ensures NextPage(r) == y % TWO64
  {
    if r + 4096 < TWO64 {
      QuotientUnique(y, TWO64, h, r + 4096);
    } else {
      QuotientUnique(y, TWO64, h + 1, r + 4096 - TWO64);
    }
  }

  /** What translate returns j pages behind `virtual` is not null, and j pages behind what it returns
      there. */
  predicate Follows(tables: Tables, root: nat, virtual: u64, j: nat)
    requires Translation(tables, root, virtual) < TWO64
  {
    Translation(tables, root, Advance(virtual, j)) != 0 &&
    Translation(tables, root, Advance(virtual, j)) == Advance(Translation(tables, root, virtual), j)
  }

  ghost predicate AllFollow(tables: Tables, root: nat, virtual: u64, n: nat)
    requires Translation(tables, root, virtual) < TWO64
  {
    forall j: nat | j < n :: Follows(tables, root, virtual, j)
  }

  lemma OneMoreFollows(tables: Tables, root: nat, virtual: u64, n: nat)
    requires Translation(tables, root, virtual) < TWO64
    requires AllFollow(tables, root, virtual, n) && Follows(tables, root, virtual, n)
    ensures AllFollow(tables, root, virtual, n + 1)
  {
  }

  /** Every translation is a pointer into the kernel window or a bare offset. */
  lemma TranslationRange(tr: Tree, virtual: u64)
    requires WellFormed(tr)
    ensures var t := Translation(tr.tables, tr.root, virtual); t < 4096 || KERNEL_SPACE_BEGIN <= t < TWO64
  {
    if Lookup(tr.tables, tr.root, VPage(virtual)).Some? { LookupInRange(tr, VPage(virtual)); }
  }

  /** A pointer into the kernel window, or an offset, soon advances out of the range of both. */
  lemma AdvancePast(t: u64) returns (end: nat)
    requires t < 4096 || t >= KERNEL_SPACE_BEGIN
    ensures 4096 <= Advance(t, end) < KERNEL_SPACE_BEGIN
  {
    if t < 4096 {
      end := 1;
      AdvanceIs(t, 1);
      QuotientUnique(t + 4096, TWO64, 0, t + 4096);
    } else {
      var k, o := (t - KERNEL_SPACE_BEGIN) / 4096, (t - KERNEL_SPACE_BEGIN) % 4096;
      end := FRAMES - k + 1;
      AdvanceIs(t, end);
      QuotientUnique(t + 4096 * end, TWO64, 1, o + 4096);
    }
  }

  /** So the loop of region_size ends. */
  lemma RegionEnds(tr: Tree, virtual: u64) returns (end: nat)
    requires WellFormed(tr)
    ensures Translation(tr.tables, tr.root, virtual) < TWO64 && !Follows(tr.tables, tr.root, virtual, end)
  {
    TranslationRange(tr, virtual);
    end := AdvancePast(Translation(tr.tables, tr.root, virtual));
    TranslationRange(tr, Advance(virtual, end));
  }

  /** n is the greatest number of pages from v that lead to the pages from k. */
  ghost predicate IsRegion(tables: Tables, root: nat, v: nat, k: nat, n: nat) {
    k + n <= FRAMES && Contiguous(tables, root, v, n, k) && !LeadsTo(tables, root, v, k, n)
  }

  lemma {:induction false} AdvancePage(virtual: u64, v: nat, j: nat)
    requires virtual % 4096 == 0 && VPage(virtual) == (v + 0) % VIRTUAL_PAGES
    ensures Advance(virtual, j) % 4096 == 0 && VPage(Advance(virtual, j)) == (v + j) % VIRTUAL_PAGES
  {
    if j > 0 {
      AdvancePage(virtual, v, j - 1);
      NextVPage(Advance(virtual, j - 1), v, j - 1);
    }
  }

  lemma {:induction false} AdvancePtr(k: nat, j: nat)
    requires k + j <= FRAMES
    ensures Advance(PtrWrapped(k), j) == PtrWrapped(k + j)
  {
    if j > 0 {
      AdvancePtr(k, j - 1);
      PtrWrappedStep(k + j - 1);
    }
  }

  /** For page-aligned addresses, following is leading to the next physical page. */
  lemma FollowsIff(tr: Tree, virtual: u64, v: nat, k: nat, j: nat)
    requires WellFormed(tr) && virtual % 4096 == 0 && VPage(virtual) == (v + 0) % VIRTUAL_PAGES && k + j <= FRAMES
    requires Translation(tr.tables, tr.root, virtual) == PtrWrapped(k)
    ensures Follows(tr.tables, tr.root, virtual, j) <==> LeadsTo(tr.tables, tr.root, v, k, j)
    ensures LeadsTo(tr.tables, tr.root, v, k, j) ==> k + j < FRAMES
  {
    AdvancePage(virtual, v, j);
    AdvancePtr(k, j);
    Continues(tr, v, k, j, Advance(virtual, j), Translation(tr.tables, tr.root, Advance(virtual, j)));
  }

  lemma {:induction false} FollowsLeads(tr: Tree, virtual: u64, v: nat, k: nat, j: nat)
    requires WellFormed(tr) && virtual % 4096 == 0 && VPage(virtual) == (v + 0) % VIRTUAL_PAGES && k <= FRAMES
    requires Translation(tr.tables, tr.root, virtual) == PtrWrapped(k)
    requires AllFollow(tr.tables, tr.root, virtual, j)
    ensures k + j <= FRAMES && Contiguous(tr.tables, tr.root, v, j, k)
    decreases j
  {
    if j > 0 {
      FollowsLeads(tr, virtual, v, k, j - 1);
      FollowsIff(tr, virtual, v, k, j - 1);
      ContiguousStep(tr.tables, tr.root, v, j - 1, k);
    }
  }

  /** The greatest number of pages from `virtual` on for which translate returns consecutive pointers. */
  method RegionSize(space: AddressSpace, virtual: u64) returns (size: nat)
    requires WellFormed(space.Shape())
    ensures Translation(space.tables, space.root, virtual) < TWO64
    ensures AllFollow(space.tables, space.root, virtual, size) && !Follows(space.tables, space.root, virtual, size)
  {
    var expected := Translate(space, virtual);
    ghost var end := RegionEnds(space.Shape(), virtual);
    ghost var first := expected;
    if expected == 0 { return 0; }
    var virt, count := virtual, 0;
    while true
      invariant virt == Advance(virtual, count) && expected == Advance(first, count)
      invariant AllFollow(space.tables, space.root, virtual, count) && count <= end
      decreases end - count
    {
      var addr := Translate(space, virt);
      if addr == 0 { return count; }
      if addr != expected { return count; }
      OneMoreFollows(space.tables, space.root, virtual, count);
      virt, expected, count := NextPage(virt), NextPage(expected), count + 1;
    }
  }

  /** For a page-aligned address, the result is the length of the contiguous region. */
  lemma SizeIsRegion(tr: Tree, virtual: u64, v: nat, size: nat)
    requires WellFormed(tr) && virtual % 4096 == 0 && v == VPage(virtual)
    requires Translation(tr.tables, tr.root, virtual) < TWO64
    requires AllFollow(tr.tables, tr.root, virtual, size)
    requires !Follows(tr.tables, tr.root, virtual, size)
    ensures size == 0 <==> Lookup(tr.tables, tr.root, v) == None
    ensures size > 0 ==> IsRegion(tr.tables, tr.root, v, Lookup(tr.tables, tr.root, v).value, size)
  {
    FirstPage(tr, virtual, v);
    if size > 0 {
      assert Follows(tr.tables, tr.root, virtual, 0);
      var k := Lookup(tr.tables, tr.root, v).value;
      FollowsLeads(tr, virtual, v, k, size);
      FollowsIff(tr, virtual, v, k, size);
    }
  }

  // ---------------------------------------------------------------- copy_mapping

  /** Below the end of the 48-bit space the region does not wrap. */
  lemma ContiguousAt(tables: Tables, root: nat, v: nat, n: nat, k: nat, vp: nat)
    requires Contiguous(tables, root, v, n, k) && v <= vp < v + n && vp < VIRTUAL_PAGES
    ensures Lookup(tables, root, vp) == Some(k + vp - v)
  {
    assert LeadsTo(tables, root, v, k, vp - v);
    assert v + (vp - v) == vp;
  }

  /** Where the source is contiguous, a copied range translates as the source does. */
  lemma CopiedAgrees(src: Tables, srcRoot: nat, before: Tables, after: Tables, root: nat, v: nat, n: nat, k: nat)
    requires Contiguous(src, srcRoot, v, n, k) && MapsRange(before, after, root, v, n, k) && v + n <= VIRTUAL_PAGES
    ensures forall vp: nat | v <= vp < v + n :: Lookup(after, root, vp) == Lookup(src, srcRoot, vp)
  {
    forall vp: nat | v <= vp < v + n ensures Lookup(after, root, vp) == Lookup(src, srcRoot, vp) {
      ContiguousAt(src, srcRoot, v, n, k, vp);
      assert MapsAt(before, after, root, v, n, k, vp);
    }
  }

  /** After the first chunk its first page is mapped, so a second call stops before mapping anything. */
  lemma SecondCall(before: Tables, after: Tables, root: nat, v: nat, n: nat, k: nat, m: nat)
    requires MapsRange(before, after, root, v, n, k) && n > 0 && v < VIRTUAL_PAGES
    requires HugeAt(after, root, v) ==> HugeFits(v, k, m)
    ensures Safe(after, root, v, m, k) && Lookup(after, root, v) == Some(k)
  {
    assert MapsAt(before, after, root, v, n, k, v);
    forall vp: nat | v <= vp < v + m && HugeAt(after, root, vp)
      ensures IsBlock(v, m, k, vp) || MappedBefore(after, root, v, vp)
    {
      assert vp > v ==> Lookup(after, root, v) != None;
    }
  }

  lemma SecondMaps(a: Tables, b: Tables, c: Tables, root: nat, v: nat, n: nat, k: nat, m: nat)
    requires MapsRange(a, b, root, v, n, k) && MapsRange(b, c, root, v, m, k) && n > 0 && v < VIRTUAL_PAGES
    ensures m == 0 && MapsRange(a, c, root, v, n, k)
  {
    assert MapsAt(a, b, root, v, n, k, v) && MapsAt(b, c, root, v, m, k, v);
    forall vp: nat | vp < VIRTUAL_PAGES ensures MapsAt(a, c, root, v, n, k, vp) {
      assert MapsAt(a, b, root, v, n, k, vp) && MapsAt(b, c, root, v, m, k, vp);
    }
  }

  lemma RegionUnique(tables: Tables, root: nat, v: nat, k: nat, size: nat, other: nat)
    requires IsRegion(tables, root, v, k, size) && IsRegion(tables, root, v, k, other)
    ensures other == size
  {
    RegionBounds(tables, root, v, k, size, other);
    RegionBounds(tables, root, v, k, other, size);
  }

  function Min(a: int, b: int): int {
    if a < b then a else b
  }

  /** What copy_mapping reads from the source: where v leads, and for how many pages. */
  method ReadRegion(src: AddressSpace, virt: u64, ghost v: nat) returns (ptr: nat, size: nat)
    requires WellFormed(src.Shape()) && virt % 4096 == 0 && v == VPage(virt)
    ensures ptr == 0 <==> src.Map(v) == None
    ensures size == 0 <==> src.Map(v) == None
    ensures src.Map(v).Some? ==> IsRegion(src.tables, src.root, v, src.Map(v).value, size)
    ensures src.Map(v).Some? ==> KERNEL_SPACE_BEGIN <= ptr < TWO64 && ptr % 4096 == 0 && PageOf(ptr) == src.Map(v).value
  {
    ptr := Translate(src, virt);
    FirstPage(src.Shape(), virt, v);
    if ptr == 0 { return ptr, 0; }
    ghost var k := src.Map(v).value;
    PtrWrappedStep(k);
    PageOfPtr(k);
    size := RegionSize(src, virt);
    SizeIsRegion(src.Shape(), virt, v, size);
  }

  /** One iteration of copy_mapping: measure the region at v and map it, or its first `left` pages. */
  method CopyChunk(dest: AddressSpace, src: AddressSpace, virt: u64, left: nat, flags: u64, ghost v: nat)
    returns (ok: bool, size: nat, ghost n: nat, ghost done: nat, ghost next: nat)
    requires dest.Valid() && TableFlags(flags) && WellFormed(src.Shape())
    requires src != dest && src !in dest.heap.linkData + dest.heap.buddyData
    requires virt % 4096 == 0 && v == VPage(virt) && 0 < left && v + left <= VIRTUAL_PAGES
    requires ChunkSafe(dest.tables, dest.root, src.tables, src.root, v, left)
    modifies dest, dest.heap, dest.heap.linkData, dest.heap.buddyData, dest.heap.freePages.data
    ensures dest.Valid() && dest.Claimed() == old(dest.Claimed())
    ensures Filled(old(dest.tables), dest.tables, WithHuge(flags))
    ensures src.Map(v) == None ==> !ok && dest.tables == old(dest.tables)
    ensures src.Map(v).Some? ==> size > 0 && n == Min(size, left) && done <= n
    ensures src.Map(v).Some? ==> IsRegion(src.tables, src.root, v, src.Map(v).value, size)
    ensures src.Map(v).Some? ==> MapsRange(old(dest.tables), dest.tables, dest.root, v, done, src.Map(v).value)
    ensures ok ==> done == n && (!HugeFits(v, src.Map(v).value, n) ==> !HugeAt(dest.tables, dest.root, v))
    ensures !ok && src.Map(v).Some? ==>
              virt == 0 || (done < n && next == v + done && dest.Blocked(old(dest.tables), v, n, src.Map(v).value, next))
  {
    n, done, next := 0, 0, v;
    FilledNothing(dest.tables, WithHuge(flags));
    var ptr;
    ptr, size := ReadRegion(src, virt, v);
    if ptr == 0 { return false, size, n, done, next; }
    if size == 0 { return false, size, n, done, next; }
    n := Min(size, left);
    ok, done, next := dest.MapRegion(virt, ptr, Min(size, left), flags);
  }

  /** The chunk that copy_mapping maps next can be mapped; see Safe. */
  ghost predicate ChunkSafe(dest: Tables, destRoot: nat, src: Tables, srcRoot: nat, v: nat, left: nat) {
    match Lookup(src, srcRoot, v)
    case None => true
    case Some(k) => forall size: nat | IsRegion(src, srcRoot, v, k, size) :: Safe(dest, destRoot, v, Min(size, left), k)
  }

  /** Where the region ends tells which ranges are contiguous. */
  lemma RegionBounds(tables: Tables, root: nat, v: nat, k: nat, size: nat, n: nat)
    requires IsRegion(tables, root, v, k, size)
    ensures Contiguous(tables, root, v, n, k) <==> n <= size
  {
  }

  /** A 2MB page at the start of a source region shorter than the copy is asked for again by the next
      call, at the same address: elsewhere that call would take it for a table. */
  ghost predicate CopyDefined(src: Tables, srcRoot: nat, v: nat, count: nat) {
    match Lookup(src, srcRoot, v)
    case None => true
    case Some(k) => forall size: nat | IsRegion(src, srcRoot, v, k, size) && size < count && HugeFits(v, k, size) :: count - size >= 512
  }

  /** What is left after the first chunk can be asked for again. */
  lemma SecondSafe(before: Tables, after: Tables, root: nat, v: nat, n: nat, k: nat,
                   src: Tables, srcRoot: nat, size: nat, count: nat)
    requires MapsRange(before, after, root, v, n, k) && n > 0 && v < VIRTUAL_PAGES
    requires Lookup(src, srcRoot, v) == Some(k) && IsRegion(src, srcRoot, v, k, size) && size < count
    requires CopyDefined(src, srcRoot, v, count) && (!HugeFits(v, k, size) ==> !HugeAt(after, root, v))
    ensures ChunkSafe(after, root, src, srcRoot, v, count - size)
  {
    SecondCall(before, after, root, v, n, k, Min(size, count - size));
    forall other: nat | IsRegion(src, srcRoot, v, k, other) ensures other == size {
      RegionUnique(src, srcRoot, v, k, size, other);
    }
  }

  /** The loop of copy_mapping, which maps the region at v again and again: it gets past the first
      iteration only when that has copied everything. */
  method CopyAligned(dest: AddressSpace, src: AddressSpace, virt: u64, count: nat, flags: u64, ghost v: nat)
    returns (ok: bool, ghost done: nat, ghost next: nat)
    requires dest.Valid() && TableFlags(flags) && WellFormed(src.Shape())
    requires src != dest && src !in dest.heap.linkData + dest.heap.buddyData
    requires virt % 4096 == 0 && v == VPage(virt) && v + count <= VIRTUAL_PAGES
    requires ChunkSafe(dest.tables, dest.root, src.tables, src.root, v, count)
    requires CopyDefined(src.tables, src.root, v, count)
    modifies dest, dest.heap, dest.heap.linkData, dest.heap.buddyData, dest.heap.freePages.data
    ensures dest.Valid() && dest.Claimed() == old(dest.Claimed())
    ensures Filled(old(dest.tables), dest.tables, WithHuge(flags))
    ensures count > 0 && src.Map(v) == None ==> !ok && dest.tables == old(dest.tables)
    ensures count > 0 && src.Map(v).Some? ==> done <= count
    ensures count > 0 && src.Map(v).Some? ==> MapsRange(old(dest.tables), dest.tables, dest.root, v, done, src.Map(v).value)
    ensures count > 0 && ok ==> done == count && Contiguous(src.tables, src.root, v, count, src.Map(v).value)
    ensures count > 0 && !ok && src.Map(v).Some? && Contiguous(src.tables, src.root, v, count, src.Map(v).value) ==>
              virt == 0 ||
              (done < count && next == v + done && dest.Blocked(old(dest.tables), v, count, src.Map(v).value, next))
    ensures count == 0 ==> ok && dest.tables == old(dest.tables)
  {
    var left: int := count;
    ghost var size := 0;
    done, next := 0, v;
    FilledNothing(dest.tables, WithHuge(flags));
    while left > 0
      invariant dest.Valid() && dest.Claimed() == old(dest.Claimed()) && left <= count
      invariant Filled(old(dest.tables), dest.tables, WithHuge(flags))
      invariant left == count ==> dest.tables == old(dest.tables)
      invariant left < count ==> src.Map(v).Some? && IsRegion(src.tables, src.root, v, src.Map(v).value, size)
      invariant left < count ==> left == count - size && done == Min(size, count) > 0
      invariant left < count ==> MapsRange(old(dest.tables), dest.tables, dest.root, v, done, src.Map(v).value)
      invariant left > 0 ==> ChunkSafe(dest.tables, dest.root, src.tables, src.root, v, left)
    {
      ghost var middle := dest.tables;
      var res, region;
      ghost var m, more;
      res, region, m, more, next := CopyChunk(dest, src, virt, left, flags, v);
      FilledTransitive(old(dest.tables), middle, dest.tables, WithHuge(flags));
      if src.Map(v).Some? { RegionBounds(src.tables, src.root, v, src.Map(v).value, region, count); }
      if left < count {
        SecondMaps(old(dest.tables), middle, dest.tables, dest.root, v, done, src.Map(v).value, more);
      } else {
        done := more;
      }
      if !res { return false, done, next; }
      left, size := left - region, region;
      if left > 0 {
        SecondSafe(old(dest.tables), dest.tables, dest.root, v, done, src.Map(v).value, src.tables, src.root, size, count);
      }
    }
    if left < count { RegionBounds(src.tables, src.root, v, src.Map(v).value, size, count); }
    return true, done, next;
  }

  lemma AlignDownPage(virtual: u64)
    ensures 0 <= virtual - virtual % 4096 < TWO64 && (virtual - virtual % 4096) % 4096 == 0
    ensures VPage(virtual - virtual % 4096) == VPage(virtual)
    ensures virtual - virtual % 4096 == 0 <==> virtual < 4096
  {
    QuotientUnique(virtual - virtual % 4096, 4096, virtual / 4096, 0);
  }

  /** On success source and destination translate all `count` pages alike. */
  method CopyMapping(dest: AddressSpace, src: AddressSpace, virtual: u64, count: int, flags: u64)
    returns (ok: bool, ghost done: nat, ghost next: nat)
    requires dest.Valid() && TableFlags(flags) && WellFormed(src.Shape())
    requires src != dest && src !in dest.heap.linkData + dest.heap.buddyData
    requires VPage(virtual) + count <= VIRTUAL_PAGES
    requires count > 0 ==> ChunkSafe(dest.tables, dest.root, src.tables, src.root, VPage(virtual), count)
    requires count > 0 ==> CopyDefined(src.tables, src.root, VPage(virtual), count)
    modifies dest, dest.heap, dest.heap.linkData, dest.heap.buddyData, dest.heap.freePages.data
    ensures dest.Valid() && dest.Claimed() == old(dest.Claimed())
    ensures Filled(old(dest.tables), dest.tables, WithHuge(flags))
    ensures count <= 0 ==> ok && dest.tables == old(dest.tables)
    ensures count > 0 && src.Map(VPage(virtual)) == None ==> !ok && dest.tables == old(dest.tables)
    ensures count > 0 && src.Map(VPage(virtual)).Some? ==> done <= count
    ensures count > 0 && src.Map(VPage(virtual)).Some? ==>
              MapsRange(old(dest.tables), dest.tables, dest.root, VPage(virtual), done, src.Map(VPage(virtual)).value)
    ensures count > 0 && ok ==> done == count
    ensures count > 0 && ok ==> Contiguous(src.tables, src.root, VPage(virtual), count, src.Map(VPage(virtual)).value)
    ensures count > 0 && ok ==>
              forall vp: nat | VPage(virtual) <= vp < VPage(virtual) + count :: dest.Map(vp) == src.Map(vp)
    ensures !ok && src.Map(VPage(virtual)).Some? &&
            Contiguous(src.tables, src.root, VPage(virtual), count, src.Map(VPage(virtual)).value) ==>
              virtual < 4096 ||
              (done < count && next == VPage(virtual) + done &&
               dest.Blocked(old(dest.tables), VPage(virtual), count, src.Map(VPage(virtual)).value, next))
  {
    ghost var v, before := VPage(virtual), dest.tables;
    AlignDownPage(virtual);
    var virt: u64 := virtual - virtual % 4096;
    FilledNothing(dest.tables, WithHuge(flags));
    if count <= 0 { return true, 0, v; }
    ok, done, next := CopyAligned(dest, src, virt, count, flags, v);
    if ok {
      CopiedAgrees(src.tables, src.root, before, dest.tables, dest.root, v, count, src.Map(v).value);
    }
  }
}
