/** kern/memory.c: the buddy page allocator.  Pages are numbered from physical address 0; a
    block header lives at the start of a free page, so the headers are per-page arrays. */
module Heaps {
  import opened Bits
  import opened BitSets
  import opened FreeBlocks
  import opened FreelistLinks

  /** The size in bytes of a number of 4KB pages. */
  function Bytes(pages: int): int {
    4096 * pages
  }

  /** What the byte counter should read when the free pages are f. */
  function FreeBytes(f: Pages): int {
    Bytes(CountIn(f, 0, |f|))
  }

  lemma FreeBytesChange(f: Pages, begin: nat, end: nat, free: bool)
    requires begin <= end <= |f| && forall x | begin <= x < end :: f[x] != free
    ensures FreeBytes(WithRange(f, begin, end, free)) ==
            if free then FreeBytes(f) + Bytes(end - begin) else FreeBytes(f) - Bytes(end - begin)
  {
    CountWithRange(f, begin, end, free);
  }

  lemma PagesOf(n: nat, bytes: int)
    requires bytes == Bytes(n)
    ensures bytes / 4096 == n && bytes % 4096 == 0 && bytes == 4096 * n
  {
  }

  lemma GrantedWithin(f: Pages, k: nat, count: int, exact: bool)
    requires 0 < count < TWO64 && SmallestClass(count) <= k && k > 0
    ensures CanHold(f, k, count) ==> Granted(f, k, count, exact) == count
    ensures !CanHold(f, k, count) ==> Granted(f, k, count, exact) < count && (exact ==> Granted(f, k, count, exact) == 0)
  {
    SmallestClassIs(count);
    Pow2Monotone(SmallestClass(count), k);
    GrantedIs(f, k, count, exact);
  }

  lemma FitsFrom(count: int, c: nat)
    requires 0 < count < TWO64 && SmallestClass(count) <= c
    ensures count <= Pow2(c)
  {
    SmallestClassIs(count);
    Pow2Monotone(SmallestClass(count), c);
  }

  lemma ClassWithin(count: int, k: nat)
    requires 0 < count < TWO64 && count <= Pow2(k)
    ensures SmallestClass(count) <= k
  {
    SmallestClassIs(count);
  }

  datatype Buffer = Null | Buffer(begin: nat, bytes: nat)

  datatype BuddyInfo = BuddyInfo(buddy: nat, bitsetIndex: nat)

  function BuddyOf(page: nat, c: nat): BuddyInfo
    requires Aligned(page, c)
  {
    BuddyInfo(Xor(page, Pow2(c)), Shr(page, c + 1))
  }

  /** The arrays behind the buddy bits. */
  function BuddyArrays(buddies: seq<BitSet>): set<object> {
    set c | 0 <= c < |buddies| :: buddies[c].data
  }

  /** MemGlobals together with the block headers stored in the pages. */
  class Heap {
    const classCount: nat
    const pageCount: nat
    var freeMemory: int
    const usablePages: BitSet
    const freePages: BitSet
    const freelist: array<int>
    const buddies: seq<BitSet>
    const next: array<int>
    const prev: array<int>
    const cls: array<int>

    /** The freelists, as the linked blocks spell them. */
    ghost var lists: seq<seq<nat>>

    /** The arrays behind the freelists, and those behind the buddy bits. */
    ghost const linkData: set<object>
    ghost const buddyData: set<object>

    /** Sizes and separation of the parts, none of which changes. */
    ghost predicate Shape() {
      && classCount >= 1 && Aligned(pageCount, classCount)
      && freelist.Length == classCount
      && next.Length == prev.Length == cls.Length == pageCount
      && freelist != next && freelist != prev && freelist != cls && next != prev && next != cls && prev != cls
      && {freelist, next, prev, cls} == linkData
      && usablePages.Valid() && usablePages.count == pageCount
      && freePages.Valid() && freePages.count == pageCount
      && usablePages.data != freePages.data
      && usablePages.data !in linkData + buddyData && freePages.data !in linkData + buddyData
      && linkData !! buddyData && this !in linkData + buddyData
      && |buddies| == classCount - 1 && BuddyShape()
    }

    ghost predicate BuddyShape() {
      && (forall c | 0 <= c < |buddies| :: buddies[c].Valid() && buddies[c].count >= Shr(pageCount, c + 1))
      && (forall c | 0 <= c < |buddies| :: buddies[c].data in buddyData)
      && (forall c, d | 0 <= c < d < |buddies| :: buddies[c].data != buddies[d].data)
    }

    ghost function Free(): (f: Pages)
      requires Shape()
      reads freePages.data
      ensures |f| == pageCount
    {
      freePages.Value()
    }

    ghost function Usable(): (f: Pages)
      requires Shape()
      reads usablePages.data
      ensures |f| == pageCount
    {
      usablePages.Value()
    }

    ghost function BuddyBits(): (r: seq<seq<bool>>)
      requires Shape()
      reads buddyData
      ensures |r| == classCount - 1
      ensures forall c | 0 <= c < classCount - 1 :: r[c] == buddies[c].Value()
    {
      seq(classCount - 1, c requires 0 <= c < classCount - 1 reads buddyData => buddies[c].Value())
    }

    ghost function Memory(): (h: Headers)
      requires Shape()
      reads linkData
      ensures h.Sized(pageCount)
    {
      Headers(next[..], prev[..], cls[..])
    }

    ghost predicate Linked()
      requires Shape()
      reads this, linkData
    {
      |lists| == classCount && AllLinked(Memory(), pageCount, freelist[..], lists)
    }

    /** The heap invariant: the freelists, the buddy bits, the two page sets and the byte counter
        are four views of one set of free pages. */
    ghost predicate Valid()
      reads this, linkData, buddyData, usablePages.data, freePages.data
    {
      && Shape() && Linked() && Agrees(Free(), lists, BuddyBits())
      && Within(Free(), Usable())
      && freeMemory == FreeBytes(Free())
    }

    /** The allocator before any page is marked usable: memory__init up to the release loop. */
    constructor (classCount: nat, pageCount: nat, usablePages: BitSet, freePages: BitSet, buddies: seq<BitSet>)
      requires classCount >= 1 && Aligned(pageCount, classCount)
      requires usablePages.Valid() && usablePages.count == pageCount
      requires freePages.Valid() && freePages.count == pageCount
      requires usablePages.data != freePages.data
      requires |buddies| == classCount - 1
      requires forall c | 0 <= c < |buddies| :: buddies[c].Valid() && buddies[c].count >= Shr(pageCount, c + 1)
      requires forall c | 0 <= c < |buddies| :: buddies[c].data != usablePages.data && buddies[c].data != freePages.data
      requires forall c, d | 0 <= c < d < |buddies| :: buddies[c].data != buddies[d].data
      modifies usablePages.data, freePages.data, BuddyArrays(buddies)
      ensures Valid() && this.classCount == classCount && this.pageCount == pageCount
      ensures this.usablePages == usablePages && this.freePages == freePages && this.buddies == buddies
      ensures fresh(linkData) && buddyData == BuddyArrays(buddies)
      ensures NoneIn(Free(), 0, pageCount) && NoneIn(Usable(), 0, pageCount)
    {
      this.classCount, this.pageCount := classCount, pageCount;
      this.usablePages, this.freePages, this.buddies := usablePages, freePages, buddies;
      var heads := new int[classCount](_ => NIL);
      var n, p, c := new int[pageCount], new int[pageCount], new int[pageCount];
      freelist, next, prev, cls := heads, n, p, c;
      freeMemory := 0;
      lists := seq(classCount, _ => []);
      linkData := {heads, n, p, c};
      buddyData := BuddyArrays(buddies);
      new;
      assert fresh(linkData);
      ClearAll();
    }

    /** No page is usable or free yet. */
    method ClearAll()
      requires Shape() && freeMemory == 0 && |lists| == classCount
      requires forall c | 0 <= c < classCount :: lists[c] == [] && freelist[c] == NIL
      modifies usablePages.data, freePages.data, buddyData
      ensures Valid() && NoneIn(Free(), 0, pageCount) && NoneIn(Usable(), 0, pageCount)
    {
      usablePages.SetAll(false);
      freePages.SetAll(false);
      ClearAllBuddies();
      NothingFree(Free(), lists, BuddyBits());
      CountUniform(Free(), 0, pageCount, false);
      forall d: nat | d < classCount ensures ClassLinked(Memory(), pageCount, freelist[..], lists, d) {}
    }

    method ClearAllBuddies()
      requires Shape()
      modifies buddyData
      ensures forall d | 0 <= d < classCount - 1 :: NoneIn(BuddyBits()[d], 0, |BuddyBits()[d]|)
    {
      var i := 0;
      while i < classCount - 1
        invariant 0 <= i <= classCount - 1
        invariant forall d | 0 <= d < i :: NoneIn(BuddyBits()[d], 0, |BuddyBits()[d]|)
      {
        ClearBuddies(i);
        i := i + 1;
      }
    }

    method ClearBuddies(c: nat)
      requires Shape() && c < classCount - 1
      modifies buddies[c].data
      ensures NoneIn(BuddyBits()[c], 0, |BuddyBits()[c]|)
      ensures forall d | 0 <= d < classCount - 1 && d != c :: BuddyBits()[d] == old(BuddyBits()[d])
    {
      buddies[c].SetAll(false);
    }

    // ---------------------------------------------------------------- freelists

    method PopFreelist(c: nat) returns (block: nat)
      requires Shape() && Linked() && c < classCount && lists[c] != []
      modifies this`lists, freelist, prev
      ensures Linked() && block < pageCount && block == old(lists)[c][0]
      ensures lists == old(lists)[c := old(lists)[c][1..]]
      ensures forall p: nat | p < pageCount && !InList(old(lists), p, c) :: old(Memory()).SameAt(Memory(), p)
    {
      ghost var h, l := Memory(), lists[c];
      assert ClassLinked(h, pageCount, freelist[..], lists, c);
      PopLinks(h, pageCount, c, l);
      block := freelist[c];
      assert cls[block] == c;
      assert prev[block] == NIL;
      freelist[c] := next[block];
      if freelist[c] != NIL {
        NotInOtherList(h, pageCount, old(freelist[..]), lists, c, l[1]);
        prev[freelist[c]] := NIL;
      }
      lists := lists[c := l[1..]];
      Relink(h, Memory(), pageCount, old(freelist[..]), old(lists), c, freelist[c], l[1..]);
    }

    method RemoveFromFreelist(page: nat, c: nat) returns (ghost i: nat)
      requires Shape() && Linked() && c < classCount && page < pageCount && page in lists[c]
      modifies this`lists, freelist, next, prev
      ensures Linked() && i < |old(lists)[c]| && old(lists)[c][i] == page
      ensures lists == old(lists)[c := old(lists)[c][..i] + old(lists)[c][i + 1..]]
      ensures forall p: nat :: p in lists[c] <==> p in old(lists)[c] && p != page
      ensures forall p: nat | p < pageCount && !InList(old(lists), p, c) :: old(Memory()).SameAt(Memory(), p)
    {
      ghost var h, l := Memory(), lists[c];
      i :| i < |l| && l[i] == page;
      assert ClassLinked(h, pageCount, freelist[..], lists, c);
      RemoveLinks(h, pageCount, c, l, i);
      assert LinkedAt(h, pageCount, c, l, i);
      assert cls[page] == c;
      var before, after := prev[page], next[page];
      if after != NIL { prev[after] := before; }
      if before != NIL {
        next[before] := after;
      } else {
        assert freelist[c] == page;
        freelist[c] := after;
      }
      assert Memory() == Unlinked(h, pageCount, before, after);
      lists := lists[c := l[..i] + l[i + 1..]];
      if after != NIL { NotInOtherList(h, pageCount, old(freelist[..]), old(lists), c, l[i + 1]); }
      if before != NIL { NotInOtherList(h, pageCount, old(freelist[..]), old(lists), c, l[i - 1]); }
      assert freelist[..] == old(freelist[..])[c := freelist[c]];
      Relink(h, Memory(), pageCount, old(freelist[..]), old(lists), c, freelist[c], lists[c]);
    }

    method AddToFreelist(page: nat, c: nat)
      requires Shape() && Linked() && c < classCount && page < pageCount && Aligned(page, c)
      requires forall d: nat :: !InList(lists, page, d)
      modifies this`lists, freelist, next, prev, cls
      ensures Linked() && lists == old(lists)[c := [page] + old(lists)[c]]
      ensures forall p: nat | p < pageCount && p != page && !InList(old(lists), p, c) ::
                old(Memory()).SameAt(Memory(), p)
    {
      ghost var h, l := Memory(), lists[c];
      forall d: nat | d < |lists| ensures page !in lists[d] { assert !InList(lists, page, d); }
      assert ClassLinked(h, pageCount, freelist[..], lists, c);
      AddLinks(h, pageCount, freelist[c], c, l, page);
      cls[page] := c;
      prev[page] := NIL;
      next[page] := freelist[c];
      if freelist[c] != NIL {
        NotInOtherList(h, pageCount, freelist[..], lists, c, l[0]);
        prev[freelist[c]] := page;
      }
      freelist[c] := page;
      assert Memory() == Pushed(h, pageCount, old(freelist[c]), c, page);
      lists := lists[c := [page] + l];
      Relink(h, Memory(), pageCount, old(freelist[..]), old(lists), c, page, lists[c]);
    }

    // ---------------------------------------------------------------- releasing

    method SetBuddy(c: nat, i: nat, value: bool)
      requires Shape() && c < classCount - 1 && i < buddies[c].count
      modifies buddies[c].data
      ensures BuddyBits() == old(BuddyBits())[c := old(BuddyBits())[c][i := value]]
    {
      buddies[c].Set(i, value);
      forall d | 0 <= d < classCount - 1 && d != c ensures BuddyBits()[d] == old(BuddyBits()[d]) {}
    }

    /** One iteration of the page loop of release_pages: file page x, merging upwards. */
    method ReleaseOne(x: nat, ghost f: Pages)
      requires Shape() && Linked() && |f| == pageCount && Agrees(f, lists, BuddyBits())
      requires x < pageCount && !f[x]
      modifies this`lists, linkData, buddyData
      ensures Linked() && Agrees(f[x := true], lists, BuddyBits())
      ensures forall p: nat | p < pageCount && p != x && !f[p] :: old(Memory()).SameAt(Memory(), p)
    {
      var page, c := x, 0;
      while c < classCount - 1
        invariant 0 <= c <= classCount - 1 && page == AlignDown(x, c) && Coalescing(f, x, c)
        invariant Linked() && Between(f[x := true], c, f, lists, BuddyBits())
        invariant forall p: nat | p < pageCount && p != x && !f[p] :: old(Memory()).SameAt(Memory(), p)
      {
        var merged;
        merged, page := MergeOrFile(x, page, c, f);
        if !merged { return; }
        c := c + 1;
      }
      AlignDownBounds(x, c);
      CoalescingInNoList(f, x, c, lists, BuddyBits());
      CoalescingTouches(f, x, c, lists, BuddyBits());
      FiledTop(f, x, c, lists, BuddyBits());
      ghost var lists0, h := lists, Memory();
      AddToFreelist(page, classCount - 1);
      forall p: nat | p < pageCount && p != x && !f[p] ensures old(Memory()).SameAt(Memory(), p) {
        assert !InList(lists0, p, classCount - 1);
        assert h.SameAt(Memory(), p);
      }
    }

    /** Read the bit of the pair around `page` and write back its negation. */
    method FlipPair(page: nat, c: nat) returns (buddy: nat, buddyIsFree: bool)
      requires Shape() && c < classCount - 1 && Aligned(page, c) && Shr(page, c + 1) < buddies[c].count
      modifies buddies[c].data
      ensures buddy == Xor(page, Pow2(c)) && buddyIsFree == old(BuddyBits())[c][Shr(page, c + 1)]
      ensures BuddyBits() == old(BuddyBits())[c := old(BuddyBits())[c][Shr(page, c + 1) := !buddyIsFree]]
    {
      var info := BuddyOf(page, c);
      buddy := info.buddy;
      buddyIsFree := buddies[c].Get(info.bitsetIndex);
      SetBuddy(c, info.bitsetIndex, !buddyIsFree);
    }

    /** The body of the class loop: flip the pair's bit, then merge with the buddy or stop. */
    method MergeOrFile(x: nat, page: nat, c: nat, ghost f: Pages) returns (merged: bool, up: nat)
      requires Shape() && Linked() && |f| == pageCount && c < classCount - 1
      requires Coalescing(f, x, c) && page == AlignDown(x, c)
      requires Between(f[x := true], c, f, lists, BuddyBits())
      modifies this`lists, linkData, buddyData
      ensures Linked()
      ensures merged ==> up == AlignDown(x, c + 1)
      ensures merged ==> Coalescing(f, x, c + 1) && Between(f[x := true], c + 1, f, lists, BuddyBits())
      ensures !merged ==> Agrees(f[x := true], lists, BuddyBits())
      ensures forall p: nat | p < pageCount && p != x && !f[p] :: old(Memory()).SameAt(Memory(), p)
    {
      ghost var lists0, bits0 := lists, BuddyBits();
      CoalesceRound(f, x, c, lists0, bits0, page);
      var buddy, buddyIsFree := FlipPair(page, c);
      if !buddyIsFree {
        FiledAt(f, x, c, lists0, bits0);
        AddToFreelist(page, c);
        return false, page;
      }
      ghost var i := RemoveFromFreelist(buddy, c);
      MergedAt(f, x, c, lists0, bits0, lists[c]);
      return true, if page < buddy then page else buddy;
    }

    /** The page loop of release_pages. */
    method FilePages(begin: nat, end: nat, ghost f: Pages)
      requires Shape() && Linked() && |f| == pageCount && Agrees(f, lists, BuddyBits())
      requires begin <= end <= pageCount && NoneIn(f, begin, end)
      modifies this`lists, linkData, buddyData
      ensures Linked() && Agrees(WithRange(f, begin, end, true), lists, BuddyBits())
      ensures forall p: nat | p < pageCount && !f[p] && !(begin <= p < end) :: old(Memory()).SameAt(Memory(), p)
    {
      var page := begin;
      ghost var g := f;
      while page != end
        invariant begin <= page <= end && g == WithRange(f, begin, page, true)
        invariant Linked() && Agrees(g, lists, BuddyBits())
        invariant forall p: nat | p < pageCount && !f[p] && !(begin <= p < page) :: old(Memory()).SameAt(Memory(), p)
        decreases end - page
      {
        ghost var h := Memory();
        ReleaseOne(page, g);
        forall p: nat | p < pageCount && !f[p] && !(begin <= p < page + 1)
          ensures old(Memory()).SameAt(Memory(), p)
        {
          assert !g[p] && h.SameAt(Memory(), p);
        }
        g := g[page := true];
        page := page + 1;
      }
    }

    method ReleasePages(begin: nat, count: nat)
      requires Valid() && begin + count <= pageCount
      requires AllIn(Usable(), begin, begin + count) && NoneIn(Free(), begin, begin + count)
      modifies this, linkData, buddyData, freePages.data
      ensures Valid() && Usable() == old(Usable())
      ensures Step(old(Free()), Released(begin, count), Free()) && freeMemory == old(freeMemory) + 4096 * count
      ensures forall p: nat | p < pageCount :: Free()[p] == (old(Free())[p] || begin <= p < begin + count)
      ensures forall p: nat | p < pageCount && !Free()[p] :: old(Memory()).SameAt(Memory(), p)
    {
      var end := begin + count;
      ghost var f := Free();
      var ok := usablePages.GetAll(begin, end);
      assert ok;
      var any := freePages.GetAny(begin, end);
      assert !any;
      FilePages(begin, end, f);
      freeMemory := freeMemory + Bytes(count);
      ghost var bits := BuddyBits();
      freePages.SetRange(begin, end, true);
      assert BuddyBits() == bits;
      FreeBytesChange(f, begin, end, true);
    }

    // ---------------------------------------------------------------- allocating

    /** The search upwards from the class of the request. */
    method FindFit(minClass: nat) returns (c: int)
      requires Valid() && minClass <= classCount
      ensures c == -1 ==> forall d | minClass <= d < classCount :: lists[d] == []
      ensures c != -1 ==> minClass <= c < classCount && lists[c] != [] && forall d | minClass <= d < c :: lists[d] == []
    {
      var current := minClass;
      while current != classCount
        invariant minClass <= current <= classCount
        invariant forall d | minClass <= d < current :: lists[d] == []
        decreases classCount - current
      {
        assert ClassLinked(Memory(), pageCount, freelist[..], lists, current);
        if freelist[current] != NIL { return current; }
        current := current + 1;
      }
      return -1;
    }

    /** The search downwards, for a request that is not exact. */
    method FindSmaller(minClass: nat) returns (c: int)
      requires Valid() && minClass <= classCount && forall d | minClass <= d < classCount :: lists[d] == []
      ensures c == -1 ==> LargestRun(Free(), minClass) == 0
      ensures c != -1 ==> 0 <= c < minClass && lists[c] != [] && LargestRun(Free(), minClass) == Pow2(c)
    {
      AgreesIsCanonical(Free(), lists, BuddyBits());
      var it := minClass - 1;
      while it >= 0
        invariant -1 <= it < minClass
        invariant LargestRun(Free(), it + 1) == LargestRun(Free(), minClass)
        invariant forall d | it < d < classCount :: lists[d] == []
      {
        assert ClassLinked(Memory(), pageCount, freelist[..], lists, it);
        ListedRun(lists, Free(), it);
        if freelist[it] != NIL { return it; }
        it := it - 1;
      }
      return -1;
    }

    /** The class search of alloc_raw: the class to split and the pages to take, or -1. */
    method FindClass(count: int, exact: bool) returns (c: int, pages: nat)
      requires Valid() && 0 < count < TWO64 && SmallestClass(count) <= classCount
      ensures pages == Granted(Free(), classCount, count, exact)
      ensures CanHold(Free(), classCount, count) ==> pages == count
      ensures !CanHold(Free(), classCount, count) ==> pages < count && (exact ==> pages == 0)
      ensures c == -1 <==> pages == 0
      ensures c != -1 ==> 0 <= c < classCount && lists[c] != [] && pages <= Pow2(c)
      ensures c != -1 && c < SmallestClass(count) ==> pages == Pow2(c)
      ensures c != -1 ==> BestFit(Free(), classCount, SmallestClass(count), lists[c][0], pages)
    {
      var minClass := SmallestClass(count);
      GrantedWithin(Free(), classCount, count, exact);
      AgreesIsCanonical(Free(), lists, BuddyBits());
      ListedRun(lists, Free(), minClass);
      c := FindFit(minClass);
      if c != -1 {
        FitsFrom(count, c);
        BestFitFound(lists, Free(), minClass, c, count);
        return c, count;
      }
      if exact { return -1, 0; }
      c := FindSmaller(minClass);
      if c == -1 { return -1, 0; }
      BestFitFound(lists, Free(), minClass, c, Pow2(c));
      return c, Pow2(c);
    }

    /** Re-file the right half of the block at `page` that the boundary e splits. */
    method RefileTail(b: nat, top: nat, ghost e: nat, page: nat, c: nat, index: nat, ghost f: Pages)
      requires Shape() && Linked() && |f| == pageCount && c < top < classCount
      requires Taking(f, classCount, b, top, e) && Refiled(e, c)
      requires Between(f, c + 1, Taken(f, b, e), lists, BuddyBits())
      requires page == SplitParent(e, c) && index == Shr(page, c + 1)
      modifies this`lists, linkData, buddyData
      ensures Linked() && Between(f, c, Taken(f, b, e), lists, BuddyBits())
      ensures forall p: nat | p < pageCount && !f[p] :: old(Memory()).SameAt(Memory(), p)
    {
      SplitRefile(f, b, top, e, c, lists, BuddyBits(), page + Pow2(c), index);
      RefileTouches(f, b, top, e, c, lists, BuddyBits(), page + Pow2(c));
      AddToFreelist(page + Pow2(c), c);
      SetBuddy(c, index, true);
    }

    /** One round of the split loop, at child class c. */
    method SplitOnce(b: nat, top: nat, ghost e: nat, remaining: nat, page: nat, c: nat, ghost f: Pages)
      returns (remaining': nat, page': nat, done: bool)
      requires Shape() && Linked() && |f| == pageCount && c < top < classCount
      requires Taking(f, classCount, b, top, e)
      requires Between(f, c + 1, Taken(f, b, e), lists, BuddyBits())
      requires page == AlignDown(e - 1, c + 1) && remaining == e - page
      modifies this`lists, linkData, buddyData
      ensures Linked() && Between(f, c, Taken(f, b, e), lists, BuddyBits())
      ensures page' == AlignDown(e - 1, c) && page' < e && remaining' == e - page' && (done ==> Aligned(e, c))
      ensures forall p: nat | p < pageCount && !f[p] :: old(Memory()).SameAt(Memory(), p)
    {
      var childSize := Pow2(c);
      SplitRound(f, b, top, e, c, lists, BuddyBits(), page, remaining);
      var index := BuddyOf(page, c).bitsetIndex;
      var bit := buddies[c].Get(index);
      assert !bit;
      if remaining > childSize { return remaining - childSize, page + childSize, false; }
      RefileTail(b, top, e, page, c, index, f);
      return remaining, page, remaining == childSize;
    }

    /** The split loop of alloc_raw: the first `count` pages of the popped block of class `top`
        at b are gone; re-file the rest. */
    method SplitTail(b: nat, top: nat, count: nat, ghost f: Pages)
      requires Shape() && Linked() && |f| == pageCount && top < classCount
      requires Taking(f, classCount, b, top, b + count)
      requires Between(f, top, Taken(f, b, b + count), lists, BuddyBits())
      modifies this`lists, linkData, buddyData
      ensures Linked() && Agrees(Taken(f, b, b + count), lists, BuddyBits())
      ensures forall p: nat | p < pageCount && !f[p] :: old(Memory()).SameAt(Memory(), p)
    {
      ghost var e := b + count;
      var remaining, page, i, done := count, b, top, false;
      AlignDownUnique(e - 1, top, b);
      while remaining > 0 && i > 0 && !done
        invariant 0 <= i <= top && page == AlignDown(e - 1, i) && page < e && remaining == e - page
        invariant done ==> Aligned(e, i)
        invariant Linked() && Between(f, i, Taken(f, b, e), lists, BuddyBits())
        invariant forall p: nat | p < pageCount && !f[p] :: old(Memory()).SameAt(Memory(), p)
        decreases i
      {
        i := i - 1;
        remaining, page, done := SplitOnce(b, top, e, remaining, page, i, f);
      }
      SplitDone(f, b, top, e, i, lists, BuddyBits());
    }

    /** The popped block's pair no longer has exactly one half in the list. */
    method ClearPair(begin: nat, top: nat)
      requires Shape() && top < classCount && Aligned(begin, top)
      requires top < classCount - 1 ==>
                 Shr(begin, top + 1) < |BuddyBits()[top]| && BuddyBits()[top][Shr(begin, top + 1)]
      modifies buddyData
      ensures BuddyBits() == WithoutBlock(old(BuddyBits()), top, begin)
    {
      if top != classCount - 1 {
        var index := BuddyOf(begin, top).bitsetIndex;
        var bit := buddies[top].Get(index);
        assert bit;
        SetBuddy(top, index, false);
      }
    }

    method MarkTaken(begin: nat, end: nat)
      requires Shape() && begin <= end && AllIn(Free(), begin, end) && Within(Free(), Usable())
      modifies freePages.data
      ensures Free() == Taken(old(Free()), begin, end)
    {
      var usable := usablePages.GetAll(begin, end);
      assert usable;
      var free := freePages.GetAll(begin, end);
      assert free;
      freePages.SetRange(begin, end, false);
    }

    /** Pop the first block of class `top`, and mark its first `pages` pages as taken. */
    method PopBlock(top: nat, pages: nat, ghost f: Pages) returns (begin: nat)
      requires Shape() && Linked() && f == Free() && Agrees(f, lists, BuddyBits())
      requires Within(f, Usable())
      requires top < classCount && lists[top] != [] && 0 < pages <= Pow2(top)
      modifies this`lists, linkData, buddyData, freePages.data
      ensures begin == old(lists)[top][0] && AllIn(f, begin, begin + pages)
      ensures Taking(f, classCount, begin, top, begin + pages)
      ensures Linked() && Free() == Taken(f, begin, begin + pages)
      ensures Between(f, top, Taken(f, begin, begin + pages), lists, BuddyBits())
      ensures forall p: nat | p < pageCount && !f[p] :: old(Memory()).SameAt(Memory(), p)
    {
      ghost var lists0, bits0 := lists, BuddyBits();
      BetweenListsFree(f, 0, f, lists0, bits0);
      assert ClassLinked(Memory(), pageCount, freelist[..], lists, top);
      HeadTaken(f, lists[top][0], top, lists[top][0] + pages, lists0, bits0);
      begin := PopFreelist(top);
      var end := begin + pages;
      MarkTaken(begin, end);
      ClearPair(begin, top);
      assert BuddyBits() == WithoutBlock(bits0, top, begin);
    }

    method TakeBlock(top: nat, pages: nat) returns (begin: nat)
      requires Valid() && top < classCount && lists[top] != [] && 0 < pages <= Pow2(top)
      modifies this, linkData, buddyData, freePages.data
      ensures Valid() && Usable() == old(Usable())
      ensures begin == old(lists)[top][0] && begin + pages <= pageCount
      ensures AllIn(old(Free()), begin, begin + pages)
      ensures Free() == WithRange(old(Free()), begin, begin + pages, false) && freeMemory == old(freeMemory) - Bytes(pages)
      ensures forall p: nat | p < pageCount && !old(Free())[p] :: old(Memory()).SameAt(Memory(), p)
    {
      ghost var f := Free();
      freeMemory := freeMemory - Bytes(pages);
      begin := PopBlock(top, pages, f);
      SplitTail(begin, top, pages, f);
      FreeBytesChange(f, begin, begin + pages, false);
    }

    /** alloc_raw, with the number of pages as a function of the free ones. */
    method AllocGranted(count: int, exact: bool) returns (buf: Buffer)
      requires Valid() && count < TWO64 / 2 && (count > 0 ==> SmallestClass(count) <= classCount)
      modifies this, linkData, buddyData, freePages.data
      ensures Valid() && Usable() == old(Usable())
      ensures buf == Null ==> Granted(old(Free()), classCount, count, exact) == 0 && Free() == old(Free())
      ensures buf != Null ==> buf.bytes == Bytes(Granted(old(Free()), classCount, count, exact)) > 0
      ensures freeMemory == old(freeMemory) - if buf == Null then 0 else buf.bytes
      ensures buf != Null ==> Step(old(Free()), Allocated(buf.begin, buf.bytes / 4096), Free())
      ensures buf != Null ==> BestFit(old(Free()), classCount, SmallestClass(count), buf.begin, buf.bytes / 4096)
      ensures forall p: nat | p < pageCount && !old(Free())[p] :: old(Memory()).SameAt(Memory(), p)
    {
      if count <= 0 { return Null; }
      var top, pages := FindClass(count, exact);
      if top == -1 { return Null; }
      var begin := TakeBlock(top, pages);
      buf := Buffer(begin, Bytes(pages));
    }

    /** alloc_raw: an exact request is met if and only if some aligned run of the classes has room for
        it, and gets the bytes asked for; an inexact one gets them then too, and otherwise the longest
        aligned run.  Exactly the pages of the buffer, which were free, are taken. */
    method AllocRaw(count: int, exact: bool) returns (buf: Buffer)
      requires Valid() && count < TWO64 / 2 && count <= Pow2(classCount)
      modifies this, linkData, buddyData, freePages.data
      ensures Valid() && Usable() == old(Usable())
      ensures exact ==> (buf != Null <==> count > 0 && CanHold(old(Free()), classCount, count))
      ensures !exact ==> (buf != Null <==> count > 0 && exists p: nat :: p < pageCount && old(Free())[p])
      ensures buf != Null && CanHold(old(Free()), classCount, count) ==> buf.bytes == 4096 * count
      ensures buf != Null && !CanHold(old(Free()), classCount, count) ==>
                0 < buf.bytes < 4096 * count && NoneLonger(old(Free()), classCount, buf.bytes / 4096)
      ensures freeMemory == old(freeMemory) - if buf == Null then 0 else buf.bytes
      ensures buf == Null ==> Free() == old(Free())
      ensures buf != Null ==> Step(old(Free()), Allocated(buf.begin, buf.bytes / 4096), Free())
      ensures buf != Null ==> buf.bytes % 4096 == 0 && buf.begin + buf.bytes / 4096 <= pageCount
      ensures buf != Null ==> forall p: nat | buf.begin <= p < buf.begin + buf.bytes / 4096 :: old(Free())[p]
      ensures forall p: nat | p < pageCount ::
                Free()[p] == (old(Free())[p] && (buf == Null || !(buf.begin <= p < buf.begin + buf.bytes / 4096)))
      ensures buf != Null ==> BestFit(old(Free()), classCount, SmallestClass(count), buf.begin, buf.bytes / 4096)
      ensures buf != Null && CanHold(old(Free()), classCount, count) ==>
                exists top: nat :: Block(old(Free()), classCount, buf.begin, top) && count <= Pow2(top) &&
                                   SmallestFor(old(Free()), classCount, count, top)
      ensures forall p: nat | p < pageCount && !old(Free())[p] :: old(Memory()).SameAt(Memory(), p)
    {
      ghost var f := Free();
      if count > 0 {
        GrantedIs(f, classCount, count, exact);
        SmallestClassIs(count);
        ClassWithin(count, classCount);
      }
      buf := AllocGranted(count, exact);
      if buf != Null {
        PagesOf(Granted(f, classCount, count, exact), buf.bytes);
        if CanHold(f, classCount, count) { BestFitIs(f, classCount, count, buf.begin, buf.bytes / 4096); }
      }
    }

    // ---------------------------------------------------------------- the other entry points

    lemma ListsDistinct()
      requires Shape() && Linked()
      ensures forall c | 0 <= c < classCount :: Distinct(lists[c])
    {
      forall c: nat | c < classCount ensures Distinct(lists[c]) {
        assert ClassLinked(Memory(), pageCount, freelist[..], lists, c);
      }
    }

    /** unsafe_mark_memory_usability */
    method MarkUsability(begin: nat, count: nat, usable: bool)
      requires Valid() && begin + count <= pageCount && NoneIn(Free(), begin, begin + count)
      modifies usablePages.data
      ensures Valid() && Free() == old(Free())
      ensures Usable() == WithRange(old(Usable()), begin, begin + count, usable)
    {
      var any := freePages.GetAny(begin, begin + count);
      assert !any;
      usablePages.SetRange(begin, begin + count, usable);
    }

    /** validate_heap, on any heap whose lists can be walked: it succeeds exactly if every block is
        filed under its own class and the blocks together are as large as the byte counter says. */
    method ValidateHeap() returns (success: bool)
      requires Shape() && |lists| == classCount && forall c | 0 <= c < classCount :: Chained(next[..], freelist[c], lists[c])
      ensures success <==> (forall c | 0 <= c < classCount :: ClassIs(cls[..], lists[c], c)) &&
                           freeMemory == Bytes(ListPages(lists, classCount))
    {
      success := true;
      var calculated := 0;
      var i := 0;
      while i < classCount
        invariant 0 <= i <= classCount && calculated == Bytes(ListPages(lists, i))
        invariant success <==> forall c | 0 <= c < i :: ClassIs(cls[..], lists[c], c)
      {
        assert Chained(next[..], freelist[i], lists[i]);
        var size := Bytes(Pow2(i));
        var block := freelist[i];
        ghost var j, before := 0, success;
        while block != NIL
          invariant 0 <= j <= |lists[i]| && block == Entry(lists[i], j)
          invariant success <==> before && ClassIs(cls[..], lists[i][..j], i)
          invariant calculated == Bytes(ListPages(lists, i) + BlockPages(j, i))
          decreases |lists[i]| - j
        {
          assert ChainedAt(next[..], lists[i], j);
          assert lists[i][..j + 1] == lists[i][..j] + [lists[i][j]];
          if cls[block] != i { success := false; }
          calculated := calculated + size;
          block := next[block];
          j := j + 1;
        }
        assert lists[i][..j] == lists[i];
        i := i + 1;
      }
      if calculated != freeMemory { success := false; }
    }

    /** The invariant makes it succeed. */
    lemma ValidPasses()
      requires Valid()
      ensures forall c | 0 <= c < classCount :: Chained(next[..], freelist[c], lists[c]) && ClassIs(cls[..], lists[c], c)
      ensures freeMemory == Bytes(ListPages(lists, classCount))
    {
      forall c: nat | c < classCount ensures Chained(next[..], freelist[c], lists[c]) && ClassIs(cls[..], lists[c], c) {
        assert ClassLinked(Memory(), pageCount, freelist[..], lists, c);
        LinkedIsChained(Memory(), pageCount, freelist[c], c, lists[c]);
      }
      ListsDistinct();
      AgreesIsCanonical(Free(), lists, BuddyBits());
      BlocksCountPages(lists, Free());
    }
  }

  /** The objects that an allocator may change. */
  ghost function Footprint(heap: Heap): set<object> {
    {heap, heap.usablePages.data, heap.freePages.data} + heap.linkData + heap.buddyData
  }
}
