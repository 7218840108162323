/** Laws of the page allocator over several calls. */
module AllocatorLaws {
  import opened Bits
  import opened BitSets
  import opened FreeBlocks
  import opened FreelistLinks
  import opened Heaps

  // ---------------------------------------------------------------- the state is canonical

  lemma {:induction false} DistinctCounts(l: seq<nat>, p: nat)
    requires Distinct(l)
    ensures multiset(l)[p] == if p in l then 1 else 0
  {
    if l != [] {
      assert l == [l[0]] + l[1..];
      DistinctCounts(l[1..], p);
    }
  }

  /** The buddy bits of class c that stand for a pair of pages below n are the same. */
  predicate SameClassBits(n: nat, c: nat, bits1: seq<bool>, bits2: seq<bool>) {
    forall i: nat | i < Shr(n, c + 1) :: SameBit(bits1, bits2, i)
  }

  predicate SameBit(bits1: seq<bool>, bits2: seq<bool>, i: nat) {
    i < |bits1| && i < |bits2| && bits1[i] == bits2[i]
  }

  /** Two allocators whose free pages are the same hold the same blocks in every class, the same
      buddy bits and the same byte count; only the order within a list may differ. */
  lemma SameFreeSameState(f: Pages, lists1: seq<seq<nat>>, bits1: seq<seq<bool>>,
                          lists2: seq<seq<nat>>, bits2: seq<seq<bool>>)
    requires |lists1| == |bits1| + 1 == |lists2| == |bits2| + 1 && Aligned(|f|, |lists1|)
    requires Agrees(f, lists1, bits1) && Agrees(f, lists2, bits2)
    requires forall c | 0 <= c < |lists1| :: Distinct(lists1[c]) && Distinct(lists2[c])
    ensures forall c | 0 <= c < |lists1| :: multiset(lists1[c]) == multiset(lists2[c])
    ensures forall c: nat | c < |bits1| :: SameClassBits(|f|, c, bits1[c], bits2[c])
  {
    forall c: nat | c < |lists1| ensures multiset(lists1[c]) == multiset(lists2[c]) {
      assert ClassAgrees(f, lists1, bits1, c) && ClassAgrees(f, lists2, bits2, c);
      forall p: nat ensures multiset(lists1[c])[p] == multiset(lists2[c])[p] {
        DistinctCounts(lists1[c], p);
        DistinctCounts(lists2[c], p);
      }
    }
    forall c: nat | c < |bits1| ensures SameClassBits(|f|, c, bits1[c], bits2[c]) {
      assert ClassAgrees(f, lists1, bits1, c) && ClassAgrees(f, lists2, bits2, c);
      BitsAgreeSame(f, c, bits1[c], bits2[c]);
    }
  }

  lemma BitsAgreeSame(f: Pages, c: nat, bits1: seq<bool>, bits2: seq<bool>)
    requires BitsAgree(f, c, bits1) && BitsAgree(f, c, bits2)
    ensures SameClassBits(|f|, c, bits1, bits2)
  {
    forall i: nat | i < Shr(|f|, c + 1) ensures SameBit(bits1, bits2, i) {
      var p := ShrOnto(i, c + 1);
      if p >= |f| { ShrMonotone(|f|, p, c + 1); }
      assert BitAgrees(f, c, bits1, p) && BitAgrees(f, c, bits2, p);
    }
  }

  // ---------------------------------------------------------------- allocate, then release

  /** Releasing exactly what an allocation returned restores the allocator. */
  method AllocThenRelease(heap: Heap, count: int, exact: bool) returns (buf: Buffer)
    requires heap.Valid() && count < TWO64 / 2 && count <= Pow2(heap.classCount)
    modifies heap, heap.linkData, heap.buddyData, heap.freePages.data
    ensures heap.Valid() && heap.Free() == old(heap.Free()) && heap.freeMemory == old(heap.freeMemory)
    ensures forall c | 0 <= c < heap.classCount :: multiset(heap.lists[c]) == multiset(old(heap.lists)[c])
    ensures forall c: nat | c + 1 < heap.classCount ::
              SameClassBits(heap.pageCount, c, heap.BuddyBits()[c], old(heap.BuddyBits())[c])
  {
    ghost var f, lists0, bits0 := heap.Free(), heap.lists, heap.BuddyBits();
    heap.ListsDistinct();
    buf := heap.AllocRaw(count, exact);
    if buf != Null {
      heap.ReleasePages(buf.begin, buf.bytes / 4096);
      assert heap.Free() == f;
    }
    heap.ListsDistinct();
    SameFreeSameState(f, heap.lists, heap.BuddyBits(), lists0, bits0);
  }

  // ---------------------------------------------------------------- the order of releases

  datatype Range = Range(begin: nat, count: nat)

  predicate InRanges(ranges: seq<Range>, x: nat) {
    exists i | 0 <= i < |ranges| :: ranges[i].begin <= x < ranges[i].begin + ranges[i].count
  }

  /** The ranges are usable, not free and pairwise disjoint: they may be released in turn. */
  predicate Releasable(f: Pages, usable: Pages, ranges: seq<Range>) {
    && (forall i | 0 <= i < |ranges| ::
          AllIn(usable, ranges[i].begin, ranges[i].begin + ranges[i].count) &&
          NoneIn(f, ranges[i].begin, ranges[i].begin + ranges[i].count))
    && (forall i, j | 0 <= i < j < |ranges| ::
          ranges[i].begin + ranges[i].count <= ranges[j].begin || ranges[j].begin + ranges[j].count <= ranges[i].begin
          || ranges[i].count == 0 || ranges[j].count == 0)
  }

  function FreedPages(f: Pages, ranges: seq<Range>): Pages {
    seq(|f|, x requires 0 <= x < |f| => f[x] || InRanges(ranges, x))
  }

  /** Releasing ranges one by one frees exactly their union. */
  method ReleaseAll(heap: Heap, ranges: seq<Range>)
    requires heap.Valid() && Releasable(heap.Free(), heap.Usable(), ranges)
    modifies heap, heap.linkData, heap.buddyData, heap.freePages.data
    ensures heap.Valid() && heap.Usable() == old(heap.Usable())
    ensures heap.Free() == FreedPages(old(heap.Free()), ranges)
  {
    var i := 0;
    ghost var f := heap.Free();
    while i < |ranges|
      invariant 0 <= i <= |ranges|
      invariant heap.Valid() && heap.Usable() == old(heap.Usable())
      invariant heap.Free() == FreedPages(f, ranges[..i])
    {
      heap.ReleasePages(ranges[i].begin, ranges[i].count);
      FreedOneMore(f, ranges, i);
      i := i + 1;
    }
    assert ranges[..i] == ranges;
  }

  lemma FreedOneMore(f: Pages, ranges: seq<Range>, i: nat)
    requires i < |ranges| && ranges[i].begin + ranges[i].count <= |f|
    ensures FreedPages(f, ranges[..i + 1]) ==
            WithRange(FreedPages(f, ranges[..i]), ranges[i].begin, ranges[i].begin + ranges[i].count, true)
  {
    forall x: nat ensures InRanges(ranges[..i + 1], x) <==>
                          InRanges(ranges[..i], x) || ranges[i].begin <= x < ranges[i].begin + ranges[i].count
    {
      assert ranges[..i + 1] == ranges[..i] + [ranges[i]];
      if InRanges(ranges[..i], x) {
        var j :| 0 <= j < i && ranges[..i][j].begin <= x < ranges[..i][j].begin + ranges[..i][j].count;
        assert ranges[..i + 1][j] == ranges[..i][j];
      }
      if ranges[i].begin <= x < ranges[i].begin + ranges[i].count { assert ranges[..i + 1][i] == ranges[i]; }
    }
  }

  /** Two allocators with the same free pages file the same blocks in every class, in whatever order. */
  lemma SameHeaps(heap1: Heap, heap2: Heap)
    requires heap1.Valid() && heap2.Valid() && heap1.classCount == heap2.classCount && heap1.Free() == heap2.Free()
    ensures heap1.freeMemory == heap2.freeMemory
    ensures forall c | 0 <= c < heap1.classCount :: multiset(heap1.lists[c]) == multiset(heap2.lists[c])
    ensures forall c: nat | c + 1 < heap1.classCount ::
              SameClassBits(heap1.pageCount, c, heap1.BuddyBits()[c], heap2.BuddyBits()[c])
  {
    heap1.ListsDistinct();
    heap2.ListsDistinct();
    SameFreeSameState(heap1.Free(), heap1.lists, heap1.BuddyBits(), heap2.lists, heap2.BuddyBits());
  }

  /** Confluence: released in any order and in any grouping, the same pages leave the same blocks
      in every class, the same buddy bits and the same byte count. */
  method ReleaseConfluence(heap1: Heap, heap2: Heap, ranges1: seq<Range>, ranges2: seq<Range>)
    requires heap1.Valid() && heap2.Valid() && Apart(heap1, heap2)
    requires heap1.classCount == heap2.classCount && heap1.Free() == heap2.Free()
    requires Releasable(heap1.Free(), heap1.Usable(), ranges1)
    requires Releasable(heap2.Free(), heap2.Usable(), ranges2)
    requires forall x: nat :: InRanges(ranges1, x) <==> InRanges(ranges2, x)
    modifies heap1, heap1.linkData, heap1.buddyData, heap1.freePages.data
    modifies heap2, heap2.linkData, heap2.buddyData, heap2.freePages.data
    ensures heap1.Valid() && heap2.Valid() && heap1.Free() == heap2.Free()
    ensures heap1.freeMemory == heap2.freeMemory
    ensures forall c | 0 <= c < heap1.classCount :: multiset(heap1.lists[c]) == multiset(heap2.lists[c])
    ensures forall c: nat | c + 1 < heap1.classCount ::
              SameClassBits(heap1.pageCount, c, heap1.BuddyBits()[c], heap2.BuddyBits()[c])
  {
    ReleaseAll(heap1, ranges1);
    ReleaseAll(heap2, ranges2);
    assert heap1.Free() == heap2.Free();
    SameHeaps(heap1, heap2);
  }

  ghost predicate Apart(heap1: Heap, heap2: Heap) {
    Footprint(heap1) !! Footprint(heap2)
  }

  // ---------------------------------------------------------------- whole runs

  predicate Run(states: seq<Pages>, events: seq<Event>) {
    |states| == |events| + 1 && forall i | 0 <= i < |events| :: Step(states[i], events[i], states[i + 1])
  }

  /** In every run of the allocator no page is handed out twice without being released between. */
  lemma {:induction false} NoDoubleAllocation(states: seq<Pages>, events: seq<Event>, i: nat, j: nat, x: nat)
    returns (k: nat)
    requires Run(states, events) && i < j < |events|
    requires events[i].Allocated? && events[j].Allocated? && Covers(events[i], x) && Covers(events[j], x)
    ensures i < k < j && events[k].Released? && Covers(events[k], x)
  {
    // The page is taken after event i and free before event j, so some release covers it.
    k := i + 1;
    assert Step(states[i], events[i], states[i + 1]);
    assert Step(states[j], events[j], states[j + 1]);
    while !(k < j && events[k].Released? && Covers(events[k], x))
      invariant i < k <= j && x < |states[k]| && !states[k][x]
      decreases j - k
    {
      assert Step(states[k], events[k], states[k + 1]);
      k := k + 1;
    }
  }

  /** Live allocations: the pages taken by events before n and not released since. */
  predicate Live(events: seq<Event>, n: nat, x: nat)
    requires n <= |events|
  {
    n > 0 && (if Covers(events[n - 1], x) then events[n - 1].Allocated? else Live(events, n - 1, x))
  }

  predicate Touched(events: seq<Event>, n: nat, x: nat)
    requires n <= |events|
  {
    exists i | 0 <= i < n :: Covers(events[i], x)
  }

  /** Conservation over whole runs: a page that some call touched is either free or live, never
      both; every other page keeps its initial state. */
  lemma {:induction false} Conservation(states: seq<Pages>, events: seq<Event>, n: nat, x: nat)
    requires Run(states, events) && n <= |events| && x < |states[0]|
    ensures |states[n]| == |states[0]|
    ensures Touched(events, n, x) ==> states[n][x] == !Live(events, n, x)
    ensures !Touched(events, n, x) ==> states[n][x] == states[0][x] && !Live(events, n, x)
  {
    if n > 0 {
      Conservation(states, events, n - 1, x);
      assert Step(states[n - 1], events[n - 1], states[n]);
      if Touched(events, n, x) && !Covers(events[n - 1], x) {
        var i :| 0 <= i < n && Covers(events[i], x);
        assert Touched(events, n - 1, x);
      }
      if Touched(events, n - 1, x) {
        var i :| 0 <= i < n - 1 && Covers(events[i], x);
        assert Touched(events, n, x);
      }
    }
  }

  // ---------------------------------------------------------------- what is granted

  /** The comment on alloc_raw promises the largest contiguous number of pages.  It is the largest
      naturally aligned run of a power-of-two size: with pages 1 and 2 of four free, asking for two
      contiguous pages fails, and an inexact request gets a single page. */
  lemma UnalignedRunIsNotFound()
    ensures var f := [false, true, true, false];
            AllIn(f, 1, 3) && Granted(f, 2, 2, true) == 0 && Granted(f, 2, 2, false) == 1
  {
    var f := [false, true, true, false];
    forall p: nat | Aligned(p, 1) ensures !RunFree(f, p, 1) {
      assert Pow2(1) == 2;
      assert p % 2 == 0 && !f[0] && !f[3];
    }
    assert LeadingZeros(1, WORD) == 63 by { OneHasWidthOne(); }
    assert SmallestClass(2) == 1;
    assert Aligned(1, 0) && RunFree(f, 1, 0);
    assert LargestRun(f, 1) == 1;
  }

  predicate RunAt(f: Pages, p: nat, n: nat) {
    p + n <= |f| && AllIn(f, p, p + n)
  }

  ghost predicate ContainsRun(f: Pages, n: nat) {
    exists p: nat :: RunAt(f, p, n)
  }

  ghost predicate Served(f: Pages, k: nat, count: int)
    requires 0 < count < TWO64
  {
    Granted(f, k, count, true) > 0
  }

  lemma LongRunIsServed(f: Pages, p: nat, n: nat, m: nat)
    requires RunAt(f, p, n) && n >= 2 * Pow2(m) - 1
    ensures HasRun(f, m)
  {
    var x := p + Pow2(m) - 1;
    AlignDownBounds(x, m);
    assert RunFree(f, AlignDown(x, m), m);
  }

  /** All but the first and the last of two blocks' pages are free. */
  function Straddling(m: nat): Pages {
    seq(2 * Pow2(m), i => 0 < i < 2 * Pow2(m) - 1)
  }

  lemma StraddlingHasNoRun(m: nat)
    ensures AllIn(Straddling(m), 1, 2 * Pow2(m) - 1) && !HasRun(Straddling(m), m)
  {
    var f := Straddling(m);
    forall p: nat | Aligned(p, m) ensures !RunFree(f, p, m) {
      AlignedPow2(m, m);
      Nested(p, m, Pow2(m), m);
      assert !f[0] && !f[2 * Pow2(m) - 1];
    }
  }

  /** How long a contiguous free run has to be for an exact request to be sure to succeed. */
  lemma ServedIffLong(k: nat, count: int, n: nat)
    requires 0 < count < TWO64 && n > 0
    ensures (forall f: Pages | ContainsRun(f, n) :: Served(f, k, count)) <==>
            SmallestClass(count) < k && n >= 2 * Pow2(SmallestClass(count)) - 1
  {
    var m := SmallestClass(count);
    if m < k && n >= 2 * Pow2(m) - 1 {
      forall f: Pages | ContainsRun(f, n) ensures Served(f, k, count) {
        var p: nat :| RunAt(f, p, n);
        LongRunIsServed(f, p, n, m);
      }
    } else if m < k {
      StraddlingHasNoRun(m);
      var f := Straddling(m);
      assert RunAt(f, 1, n);
      assert ContainsRun(f, n) && !Served(f, k, count);
    } else {
      var f := seq(n, _ => true);
      assert RunAt(f, 0, n);
      assert ContainsRun(f, n) && !Served(f, k, count);
    }
  }

  /** n is the length of the longest contiguous free run. */
  ghost predicate Longest(f: Pages, n: nat) {
    ContainsRun(f, n) && forall l: nat | l > n :: !ContainsRun(f, l)
  }

  /** When an inexact request that cannot be met gets "the largest contiguous number of pages that
      exist": exactly if that number is a power of two below the class asked for, and some free run of
      that size is naturally aligned. */
  lemma FallbackIsLongest(f: Pages, k: nat, count: int, n: nat)
    requires 0 < count < TWO64 && Longest(f, n)
    requires SmallestClass(count) >= k || !HasRun(f, SmallestClass(count))
    ensures Granted(f, k, count, false) == n <==>
            n == 0 || exists j: nat :: j < SmallestClass(count) && n == Pow2(j) && HasRun(f, j)
  {
    var m := SmallestClass(count);
    if LargestRun(f, m) > 0 {
      var j := LargestRunIsLargest(f, m);
      RunIsContiguous(f, j);
      assert LargestRun(f, m) <= n;
    }
    if j: nat :| j < m && n == Pow2(j) && HasRun(f, j) { LargestAtLeast(f, m, j); }
  }

  lemma RunIsContiguous(f: Pages, j: nat)
    requires HasRun(f, j)
    ensures ContainsRun(f, Pow2(j))
  {
    var p: nat :| Aligned(p, j) && RunFree(f, p, j);
    assert RunAt(f, p, Pow2(j));
  }

  lemma OneHasWidthOne()
    ensures LeadingZeros(1, WORD) == 63
  {
    Pow2Of64();
    LeadingZerosBound(1, WORD);
    var k := LeadingZeros(1, WORD);
    if k < 63 { Pow2Monotone(1, 63 - k); }
  }
}
