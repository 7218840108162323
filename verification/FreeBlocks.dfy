/** What the buddy allocator's freelists mean.  A page set is a `seq<bool>`; the freelists are
    one sequence of block start pages per size class.  `Tiles` is the classical reading of the
    lists (disjoint aligned blocks, exactly covering the free pages, no two free buddies);
    `Canonical` says the blocks are the maximal naturally aligned free runs.  The two are
    equivalent, so the block set is a function of the free pages alone. */
module FreeBlocks {
  import opened Bits
  import opened BitSets
  import opened FreelistLinks

  type Pages = seq<bool>

  /** All pages of the run of 2^c pages at p are free. */
  predicate RunFree(f: Pages, p: nat, c: nat) {
    p + Pow2(c) <= |f| && forall x :: p <= x < p + Pow2(c) ==> f[x]
  }

  /** The run of class c at p is a maximal naturally aligned free run, classes being < k. */
  predicate Block(f: Pages, k: nat, p: nat, c: nat) {
    c < k && Aligned(p, c) && RunFree(f, p, c) &&
    (c + 1 < k ==> !RunFree(f, AlignDown(p, c + 1), c + 1))
  }

  predicate InList(lists: seq<seq<nat>>, p: nat, c: nat) {
    c < |lists| && p in lists[c]
  }

  ghost predicate Canonical(lists: seq<seq<nat>>, f: Pages) {
    forall p: nat, c: nat :: InList(lists, p, c) <==> Block(f, |lists|, p, c)
  }

  ghost predicate Covered(lists: seq<seq<nat>>, x: nat) {
    exists p: nat, c: nat :: InList(lists, p, c) && p <= x < p + Pow2(c)
  }

  ghost predicate Tiles(lists: seq<seq<nat>>, f: Pages) {
    && (forall p: nat, c: nat :: InList(lists, p, c) ==> Aligned(p, c) && p + Pow2(c) <= |f|)
    && (forall p: nat, c: nat, q: nat, d: nat ::
          InList(lists, p, c) && InList(lists, q, d) && (p != q || c != d) ==>
            p + Pow2(c) <= q || q + Pow2(d) <= p)
    && (forall x: nat | x < |f| :: f[x] <==> Covered(lists, x))
    && (forall p: nat, c: nat ::
          InList(lists, p, c) && c + 1 < |lists| && Aligned(p, c + 1) ==>
            !InList(lists, p + Pow2(c), c))
  }

  // ---------------------------------------------------------------- runs

  lemma RunFreeHalves(f: Pages, p: nat, c: nat)
    ensures RunFree(f, p, c + 1) <==> RunFree(f, p, c) && RunFree(f, p + Pow2(c), c)
  {
    assert Pow2(c + 1) == 2 * Pow2(c);
  }

  lemma RunFreeSub(f: Pages, p: nat, c: nat, q: nat, d: nat)
    requires RunFree(f, q, d) && q <= p && p + Pow2(c) <= q + Pow2(d)
    ensures RunFree(f, p, c)
  {
  }

  /** Every free aligned run lies in a maximal one. */
  lemma {:induction false} MaximalAround(f: Pages, k: nat, p: nat, c: nat) returns (q: nat, d: nat)
    requires c < k && Aligned(p, c) && RunFree(f, p, c)
    ensures Block(f, k, q, d) && c <= d && q <= p && p + Pow2(c) <= q + Pow2(d)
    decreases k - c
  {
    var up := AlignDown(p, c + 1);
    if c + 1 < k && RunFree(f, up, c + 1) {
      AlignDownBounds(p, c + 1);
      q, d := MaximalAround(f, k, up, c + 1);
      AlignedParent(p, c);
    } else {
      q, d := p, c;
    }
  }

  /** Overlapping maximal runs are equal. */
  lemma MaximalDisjoint(f: Pages, k: nat, p: nat, c: nat, q: nat, d: nat)
    requires Block(f, k, p, c) && Block(f, k, q, d) && (p != q || c != d)
    ensures p + Pow2(c) <= q || q + Pow2(d) <= p
  {
    if c <= d {
      MaximalDisjointOrdered(f, k, p, c, q, d);
    } else {
      MaximalDisjointOrdered(f, k, q, d, p, c);
    }
  }

  lemma MaximalDisjointOrdered(f: Pages, k: nat, p: nat, c: nat, q: nat, d: nat)
    requires c <= d && Block(f, k, p, c) && Block(f, k, q, d) && (p != q || c != d)
    ensures p + Pow2(c) <= q || q + Pow2(d) <= p
  {
    Nested(p, c, q, d);
    if p == q && c < d { Pow2Monotone(c, d); }
    if c == d { Nested(q, d, p, c); }
    if c < d && q <= p < q + Pow2(d) { ParentInside(f, p, c, q, d); }
  }

  /** A run around a smaller aligned run contains the smaller one's parent too. */
  lemma ParentInside(f: Pages, p: nat, c: nat, q: nat, d: nat)
    requires c < d && Aligned(q, d) && RunFree(f, q, d) && q <= p < q + Pow2(d)
    ensures RunFree(f, AlignDown(p, c + 1), c + 1)
  {
    var up := AlignDown(p, c + 1);
    AlignDownBounds(p, c + 1);
    Nested(up, c + 1, q, d);
    AlignDownBounds(p, d);
    AlignDownUnique(p, d, q);
    NestedAlignDown(p, c + 1, d);
    RunFreeSub(f, up, c + 1, q, d);
  }

  lemma NestedAlignDown(p: nat, c: nat, d: nat)
    requires c <= d
    ensures AlignDown(p, d) <= AlignDown(p, c)
    ensures AlignDown(p, c) + Pow2(c) <= AlignDown(p, d) + Pow2(d)
  {
    AlignDownBounds(p, c);
    AlignDownBounds(p, d);
    Nested(AlignDown(p, c), c, AlignDown(p, d), d);
  }

  // ---------------------------------------------------------------- canonical form

  /** In a tiling, every aligned free run lies inside one listed block. */
  lemma {:induction false} CoveringBlock(lists: seq<seq<nat>>, f: Pages, q: nat, j: nat) returns (p: nat, c: nat)
    requires Tiles(lists, f) && j < |lists| && Aligned(q, j) && RunFree(f, q, j)
    ensures InList(lists, p, c) && j <= c && p <= q && q + Pow2(j) <= p + Pow2(c)
    decreases j
  {
    if j == 0 {
      assert f[q] && Covered(lists, q);
      p, c :| InList(lists, p, c) && p <= q < p + Pow2(c);
    } else {
      var half := Pow2(j - 1);
      RunFreeHalves(f, q, j - 1);
      AlignedHalves(q, j - 1);
      var left, lc := CoveringBlock(lists, f, q, j - 1);
      var right, rc := CoveringBlock(lists, f, q + half, j - 1);
      if lc >= j {
        p, c := left, lc;
        Nested(q, j, left, lc);
      } else {
        // The left half is itself a listed block; then the right half cannot be one.
        assert left == q && lc == j - 1;
        p, c := right, rc;
        if rc == j - 1 { assert false; }
        AlignedContainsLeft(q, j - 1, right, rc);
      }
    }
  }

  lemma AlignedContainsLeft(q: nat, n: nat, p: nat, c: nat)
    requires Aligned(q, n + 1) && Aligned(p, c) && n < c && p <= q + Pow2(n) < p + Pow2(c)
    ensures p <= q && q + Pow2(n + 1) <= p + Pow2(c)
  {
    Pow2Monotone(n + 1, c);
    Nested(q, n + 1, p, c);
  }

  /** Canonical form: a tiling without free buddies is exactly the set of maximal free runs. */
  lemma TilesIffCanonical(lists: seq<seq<nat>>, f: Pages)
    requires |lists| > 0
    ensures Tiles(lists, f) <==> Canonical(lists, f)
  {
    if Tiles(lists, f) { TilesAreCanonical(lists, f); }
    if Canonical(lists, f) { CanonicalTiles(lists, f); }
  }

  lemma TilesAreCanonical(lists: seq<seq<nat>>, f: Pages)
    requires Tiles(lists, f)
    ensures Canonical(lists, f)
  {
    var k := |lists|;
    forall p: nat, c: nat ensures InList(lists, p, c) <==> Block(f, k, p, c) {
      if InList(lists, p, c) {
        forall x | p <= x < p + Pow2(c) ensures f[x] { assert Covered(lists, x); }
        var up := AlignDown(p, c + 1);
        if c + 1 < k && RunFree(f, up, c + 1) {
          AlignDownBounds(p, c + 1);
          var q, d := CoveringBlock(lists, f, up, c + 1);
          assert false;
        }
      }
      if Block(f, k, p, c) {
        var q, d := CoveringBlock(lists, f, p, c);
        if c < d {
          forall x | q <= x < q + Pow2(d) ensures f[x] { assert Covered(lists, x); }
          NestedAlignDown(p, c + 1, d);
          AlignDownUnique(p, d, q);
        }
      }
    }
  }

  lemma CanonicalTiles(lists: seq<seq<nat>>, f: Pages)
    requires |lists| > 0 && Canonical(lists, f)
    ensures Tiles(lists, f)
  {
    var k := |lists|;
    forall p: nat, c: nat, q: nat, d: nat |
        InList(lists, p, c) && InList(lists, q, d) && (p != q || c != d)
      ensures p + Pow2(c) <= q || q + Pow2(d) <= p
    {
      MaximalDisjoint(f, k, p, c, q, d);
    }
    forall x: nat | x < |f| ensures f[x] <==> Covered(lists, x) {
      if f[x] {
        var q, d := MaximalAround(f, k, x, 0);
        assert InList(lists, q, d);
      }
    }
    forall p: nat, c: nat | InList(lists, p, c) && c + 1 < k && Aligned(p, c + 1)
      ensures !InList(lists, p + Pow2(c), c)
    {
      AlignedParent(p, c);
      RunFreeHalves(f, p, c);
    }
  }

  // ---------------------------------------------------------------- one class at a time

  /** Exactly one of the two halves of the run of class c + 1 at p is entirely free. */
  predicate OneHalfFree(f: Pages, p: nat, c: nat) {
    RunFree(f, p, c) != RunFree(f, p + Pow2(c), c)
  }

  ghost predicate ListAgrees(f: Pages, k: nat, c: nat, l: seq<nat>) {
    forall p: nat :: p in l <==> Block(f, k, p, c)
  }

  /** The buddy bits of class c: one bit a pair, and the padding bits clear. */
  ghost predicate BitsAgree(f: Pages, c: nat, bits: seq<bool>) {
    && (forall p: nat :: BitAgrees(f, c, bits, p))
    && (forall i | Shr(|f|, c + 1) <= i < |bits| :: !bits[i])
  }

  predicate BitAgrees(f: Pages, c: nat, bits: seq<bool>, p: nat) {
    p < |f| && Aligned(p, c + 1) ==>
      Shr(p, c + 1) < |bits| && bits[Shr(p, c + 1)] == OneHalfFree(f, p, c)
  }

  /** f and g have the same free aligned runs of class c. */
  ghost predicate SameAt(f: Pages, g: Pages, c: nat) {
    |f| == |g| && forall q: nat | Aligned(q, c) :: RunFree(f, q, c) == RunFree(g, q, c)
  }

  lemma {:induction false} SameAtUp(f: Pages, g: Pages, c: nat, d: nat)
    requires SameAt(f, g, c) && c <= d
    ensures SameAt(f, g, d)
    decreases d - c
  {
    if c < d {
      var n := c + 1;
      forall q: nat | Aligned(q, n) ensures RunFree(f, q, n) == RunFree(g, q, n) {
        AlignedHalves(q, c);
        RunFreeHalves(f, q, c);
        RunFreeHalves(g, q, c);
      }
      SameAtUp(f, g, c + 1, d);
    }
  }

  lemma SameAtAgrees(f: Pages, g: Pages, k: nat, c: nat, l: seq<nat>, bits: seq<bool>)
    requires SameAt(f, g, c)
    ensures ListAgrees(f, k, c, l) <==> ListAgrees(g, k, c, l)
    ensures BitsAgree(f, c, bits) <==> BitsAgree(g, c, bits)
  {
    SameAtUp(f, g, c, c + 1);
    forall p: nat ensures Block(f, k, p, c) <==> Block(g, k, p, c) {
      AlignDownBounds(p, c + 1);
    }
    forall p: nat ensures BitAgrees(f, c, bits, p) <==> BitAgrees(g, c, bits, p) {
      if Aligned(p, c + 1) { AlignedHalves(p, c); }
    }
  }

  /** One pair changes; its bit is updated. */
  lemma UpdateBit(f: Pages, g: Pages, c: nat, bits: seq<bool>, up: nat)
    requires |f| == |g| && Aligned(|f|, c + 1) && BitsAgree(f, c, bits)
    requires up < |f| && Aligned(up, c + 1)
    requires forall p: nat | Aligned(p, c + 1) && p != up :: OneHalfFree(g, p, c) == OneHalfFree(f, p, c)
    ensures var i := Shr(up, c + 1);
            i < |bits| && bits[i] == OneHalfFree(f, up, c) &&
            BitsAgree(g, c, bits[i := OneHalfFree(g, up, c)])
  {
    var i := Shr(up, c + 1);
    assert BitAgrees(f, c, bits, up);
    ShrStrictlyMonotone(up, |f|, c + 1);
    var bits' := bits[i := OneHalfFree(g, up, c)];
    forall p: nat ensures BitAgrees(g, c, bits', p) {
      assert BitAgrees(f, c, bits, p);
      if p < |f| && Aligned(p, c + 1) && p != up && Shr(p, c + 1) == i { ShrSame(p, up, c + 1); }
    }
  }

  lemma ShrSame(p: nat, q: nat, n: nat)
    requires Aligned(p, n) && Aligned(q, n) && Shr(p, n) == Shr(q, n)
    ensures p == q
  {
    if p < q { ShrStrictlyMonotone(p, q, n); }
    if q < p { ShrStrictlyMonotone(q, p, n); }
  }

  /** The freelist and the buddy bits of class c are those of the free pages f. */
  ghost predicate ClassAgrees(f: Pages, lists: seq<seq<nat>>, bits: seq<seq<bool>>, c: nat)
    requires c < |lists| == |bits| + 1
  {
    ListAgrees(f, |lists|, c, lists[c]) && (c + 1 < |lists| ==> BitsAgree(f, c, bits[c]))
  }

  ghost predicate Agrees(f: Pages, lists: seq<seq<nat>>, bits: seq<seq<bool>>)
    requires |lists| == |bits| + 1
  {
    forall c: nat | c < |lists| :: ClassAgrees(f, lists, bits, c)
  }

  /** Classes below c agree with `below`, the others with `above`. */
  ghost predicate Between(below: Pages, c: nat, above: Pages, lists: seq<seq<nat>>, bits: seq<seq<bool>>)
    requires |lists| == |bits| + 1
  {
    && (forall d: nat | d < |lists| && d < c :: ClassAgrees(below, lists, bits, d))
    && (forall d: nat | d < |lists| && c <= d :: ClassAgrees(above, lists, bits, d))
  }

  function WithBits(bits: seq<seq<bool>>, c: nat, b: seq<bool>): (r: seq<seq<bool>>)
    ensures |r| == |bits|
  {
    if c < |bits| then bits[c := b] else bits
  }

  /** Class c is rewritten for the pages of the classes below it. */
  lemma RaiseBoundary(below: Pages, c: nat, above: Pages, lists: seq<seq<nat>>, bits: seq<seq<bool>>,
                      l: seq<nat>, b: seq<bool>)
    requires c < |lists| == |bits| + 1 && Between(below, c, above, lists, bits)
    requires ListAgrees(below, |lists|, c, l) && (c < |bits| ==> BitsAgree(below, c, b))
    ensures Between(below, c + 1, above, lists[c := l], WithBits(bits, c, b))
  {
    var lists', bits' := lists[c := l], WithBits(bits, c, b);
    forall d: nat | d < |lists| && d < c + 1 ensures ClassAgrees(below, lists', bits', d) {
      assert d < c ==> ClassAgrees(below, lists, bits, d);
    }
    forall d: nat | d < |lists| && c + 1 <= d ensures ClassAgrees(above, lists', bits', d) {
      assert ClassAgrees(above, lists, bits, d);
    }
  }

  /** Class c is rewritten for the pages of the classes above it. */
  lemma LowerBoundary(below: Pages, c: nat, above: Pages, lists: seq<seq<nat>>, bits: seq<seq<bool>>,
                      l: seq<nat>, b: seq<bool>)
    requires c < |lists| == |bits| + 1 && Between(below, c + 1, above, lists, bits)
    requires ListAgrees(above, |lists|, c, l) && (c < |bits| ==> BitsAgree(above, c, b))
    ensures Between(below, c, above, lists[c := l], WithBits(bits, c, b))
  {
    var lists', bits' := lists[c := l], WithBits(bits, c, b);
    forall d: nat | d < |lists| && d < c ensures ClassAgrees(below, lists', bits', d) {
      assert ClassAgrees(below, lists, bits, d);
    }
    forall d: nat | d < |lists| && c <= d ensures ClassAgrees(above, lists', bits', d) {
      assert d > c ==> ClassAgrees(above, lists, bits, d);
    }
  }

  /** The two page sets agree from class c on, so the boundary is immaterial. */
  lemma BetweenSame(below: Pages, c: nat, above: Pages, lists: seq<seq<nat>>, bits: seq<seq<bool>>)
    requires |lists| == |bits| + 1 && Between(below, c, above, lists, bits)
    requires c < |lists| ==> SameAt(above, below, c)
    ensures Agrees(below, lists, bits)
  {
    forall d: nat | d < |lists| ensures ClassAgrees(below, lists, bits, d) {
      if c <= d {
        assert ClassAgrees(above, lists, bits, d);
        SameAtUp(above, below, c, d);
        SameAtAgrees(above, below, |lists|, d, lists[d], if d < |bits| then bits[d] else []);
      }
    }
  }

  lemma AgreesIsCanonical(f: Pages, lists: seq<seq<nat>>, bits: seq<seq<bool>>)
    requires |lists| == |bits| + 1 && Agrees(f, lists, bits)
    ensures Canonical(lists, f)
  {
    forall p: nat, c: nat ensures InList(lists, p, c) <==> Block(f, |lists|, p, c) {
      if c < |lists| { assert ClassAgrees(f, lists, bits, c); }
    }
  }

  // ---------------------------------------------------------------- freeing one page

  /** The coalescing loop has reached class c with the free run around x. */
  ghost predicate Coalescing(f: Pages, x: nat, c: nat) {
    x < |f| && !f[x] && RunFree(f[x := true], AlignDown(x, c), c)
  }

  lemma FreedElsewhere(f: Pages, x: nat, q: nat, c: nat)
    requires x < |f| && Aligned(q, c) && q != AlignDown(x, c)
    ensures RunFree(f, q, c) == RunFree(f[x := true], q, c)
  {
    if q <= x < q + Pow2(c) { AlignDownUnique(x, c, q); }
    var g := f[x := true];
    assert forall y | q <= y < q + Pow2(c) && y < |f| :: f[y] == g[y];
  }

  lemma NotFreeAround(f: Pages, x: nat, c: nat)
    requires x < |f| && !f[x]
    ensures !RunFree(f, AlignDown(x, c), c)
  {
    AlignDownBounds(x, c);
  }

  lemma FreedSameAbove(f: Pages, x: nat, c: nat)
    requires x < |f| && !f[x] && !RunFree(f[x := true], AlignDown(x, c), c)
    ensures SameAt(f, f[x := true], c)
  {
    NotFreeAround(f, x, c);
    forall q: nat | Aligned(q, c) ensures RunFree(f, q, c) == RunFree(f[x := true], q, c) {
      if q != AlignDown(x, c) { FreedElsewhere(f, x, q, c); }
    }
  }

  /** The other half of the parent of the class-c block around x. */
  function OtherHalf(x: nat, c: nat): (r: nat)
    ensures Aligned(r, c) && r != AlignDown(x, c)
    ensures var page, up := AlignDown(x, c), AlignDown(x, c + 1);
            (page == up && r == up + Pow2(c)) || (page == up + Pow2(c) && r == up)
  {
    var p := AlignDown(x, c);
    AlignDownBounds(x, c);
    AlignDownBounds(x, c + 1);
    ParentOfAlignDown(x, c);
    AlignedParent(p, c);
    AlignedHalves(AlignDown(x, c + 1), c);
    if Aligned(p, c + 1) then p + Pow2(c) else p - Pow2(c)
  }

  /** The parent run becomes free exactly when the other half already was. */
  lemma MergeIff(f: Pages, x: nat, c: nat)
    requires Coalescing(f, x, c)
    ensures RunFree(f[x := true], AlignDown(x, c + 1), c + 1) <==> RunFree(f, OtherHalf(x, c), c)
  {
    RunFreeHalves(f[x := true], AlignDown(x, c + 1), c);
    FreedElsewhere(f, x, OtherHalf(x, c), c);
  }

  /** The run being coalesced is in no list yet. */
  lemma CoalescingUnlisted(f: Pages, x: nat, k: nat, c: nat, d: nat)
    requires c < k && Coalescing(f, x, c)
    ensures d < c ==> !Block(f[x := true], k, AlignDown(x, c), d)
    ensures c <= d ==> !Block(f, k, AlignDown(x, c), d)
  {
    var p := AlignDown(x, c);
    AlignDownBounds(x, c);
    if d < c {
      AlignedWeaken(p, c, d + 1);
      AlignedWeaken(p, c, d);
      AlignedParent(p, d);
      Pow2Monotone(d + 1, c);
      RunFreeSub(f[x := true], p, d + 1, p, c);
    } else {
      Pow2Monotone(c, d);
    }
  }

  lemma CoalescingInNoList(f: Pages, x: nat, c: nat, lists: seq<seq<nat>>, bits: seq<seq<bool>>)
    requires c < |lists| == |bits| + 1 && Coalescing(f, x, c)
    requires Between(f[x := true], c, f, lists, bits)
    ensures forall d: nat :: !InList(lists, AlignDown(x, c), d)
  {
    forall d: nat ensures !InList(lists, AlignDown(x, c), d) {
      if d < |lists| {
        assert ClassAgrees(if d < c then f[x := true] else f, lists, bits, d);
        CoalescingUnlisted(f, x, |lists|, c, d);
      }
    }
  }

  /** The loop touches no header but those of free pages and of the page being freed. */
  lemma CoalescingTouches(f: Pages, x: nat, c: nat, lists: seq<seq<nat>>, bits: seq<seq<bool>>)
    requires c < |lists| == |bits| + 1 && Coalescing(f, x, c)
    requires Between(f[x := true], c, f, lists, bits)
    ensures AlignDown(x, c) == x || f[AlignDown(x, c)]
    ensures forall p: nat, d: nat | p < |f| && p != x && !f[p] :: !InList(lists, p, d)
  {
    var g := f[x := true];
    AlignDownBounds(x, c);
    assert g[AlignDown(x, c)];
    forall p: nat, d: nat | p < |f| && p != x && !f[p] ensures !InList(lists, p, d) {
      if d < |lists| {
        assert ClassAgrees(if d < c then g else f, lists, bits, d);
        assert !g[p];
      }
    }
  }

  lemma FreedList(f: Pages, x: nat, k: nat, c: nat, l: seq<nat>)
    requires c < k && Coalescing(f, x, c) && ListAgrees(f, k, c, l)
    requires c + 1 < k ==> !RunFree(f, OtherHalf(x, c), c)
    ensures AlignDown(x, c) !in l
    ensures ListAgrees(f[x := true], k, c, [AlignDown(x, c)] + l)
  {
    var g, page := f[x := true], AlignDown(x, c);
    AlignDownBounds(x, c);
    NotFreeAround(f, x, c);
    ParentOfAlignDown(x, c);
    if c + 1 < k { MergeIff(f, x, c); }
    forall p: nat ensures p in [page] + l <==> Block(g, k, p, c) {
      if p != page && Aligned(p, c) {
        FreedElsewhere(f, x, p, c);
        if c + 1 < k {
          FreedSameAbove(f, x, c + 1);
          AlignDownBounds(p, c + 1);
        }
      }
    }
  }

  lemma MergedList(f: Pages, x: nat, k: nat, c: nat, l: seq<nat>, l': seq<nat>)
    requires c + 1 < k && Coalescing(f, x, c) && ListAgrees(f, k, c, l)
    requires RunFree(f, OtherHalf(x, c), c)
    requires forall p: nat :: p in l' <==> p in l && p != OtherHalf(x, c)
    ensures OtherHalf(x, c) in l && Coalescing(f, x, c + 1)
    ensures ListAgrees(f[x := true], k, c, l')
  {
    var g, page, up, other := f[x := true], AlignDown(x, c), AlignDown(x, c + 1), OtherHalf(x, c);
    MergeIff(f, x, c);
    AlignDownBounds(x, c + 1);
    NotFreeAround(f, x, c + 1);
    AlignDownUnique(other, c + 1, up);
    AlignDownUnique(page, c + 1, up);
    forall p: nat ensures p in l' <==> Block(g, k, p, c) {
      if p != page && p != other && Aligned(p, c) {
        FreedElsewhere(f, x, p, c);
        AlignDownBounds(p, c + 1);
        AlignedParent(p, c);
        if AlignDown(p, c + 1) != up { FreedElsewhere(f, x, AlignDown(p, c + 1), c + 1); }
      }
      if p == page { NotFreeAround(f, x, c); }
    }
  }

  lemma FreedBits(f: Pages, x: nat, c: nat, bits: seq<bool>)
    requires Aligned(|f|, c + 1) && Coalescing(f, x, c) && BitsAgree(f, c, bits)
    ensures var i := Shr(AlignDown(x, c), c + 1);
            i < |bits| && bits[i] == RunFree(f, OtherHalf(x, c), c) &&
            BitsAgree(f[x := true], c, bits[i := !bits[i]])
  {
    var g, up, page := f[x := true], AlignDown(x, c + 1), AlignDown(x, c);
    AlignDownBounds(x, c + 1);
    ParentOfAlignDown(x, c);
    ShrAlignDown(page, c + 1);
    NotFreeAround(f, x, c);
    FreedElsewhere(f, x, OtherHalf(x, c), c);
    forall p: nat | Aligned(p, c + 1) && p != up ensures OneHalfFree(g, p, c) == OneHalfFree(f, p, c) {
      PairElsewhere(f, x, c, p, up);
    }
    UpdateBit(f, g, c, bits, up);
  }

  lemma PairElsewhere(f: Pages, x: nat, c: nat, p: nat, up: nat)
    requires Coalescing(f, x, c) && up == AlignDown(x, c + 1) && Aligned(p, c + 1) && p != up
    ensures OneHalfFree(f[x := true], p, c) == OneHalfFree(f, p, c)
  {
    AlignDownBounds(x, c);
    AlignDownBounds(x, c + 1);
    AlignedHalves(p, c);
    Nested(p, c + 1, up, c + 1);
    Nested(up, c + 1, p, c + 1);
    FreedElsewhere(f, x, p, c);
    FreedElsewhere(f, x, p + Pow2(c), c);
  }

  /** The bit of the pair around x that the coalescing loop reads, flips and writes back. */
  function PairBit(x: nat, c: nat): nat {
    Shr(AlignDown(x, c), c + 1)
  }

  lemma PairBitReads(f: Pages, x: nat, c: nat, lists: seq<seq<nat>>, bits: seq<seq<bool>>)
    requires c + 1 < |lists| == |bits| + 1 && Aligned(|f|, |lists|) && Coalescing(f, x, c)
    requires Between(f[x := true], c, f, lists, bits)
    ensures PairBit(x, c) < |bits[c]| && bits[c][PairBit(x, c)] == RunFree(f, OtherHalf(x, c), c)
    ensures OtherHalf(x, c) in lists[c] <==> bits[c][PairBit(x, c)]
  {
    assert ClassAgrees(f, lists, bits, c);
    AlignedWeaken(|f|, |lists|, c + 1);
    FreedBits(f, x, c, bits[c]);
    var other, up := OtherHalf(x, c), AlignDown(x, c + 1);
    AlignDownBounds(x, c + 1);
    AlignDownUnique(other, c + 1, up);
    NotFreeAround(f, x, c + 1);
  }

  /** What the coalescing loop sees at class c < |lists| - 1, with the run around x at `page`. */
  lemma CoalesceRound(f: Pages, x: nat, c: nat, lists: seq<seq<nat>>, bits: seq<seq<bool>>, page: nat)
    requires c + 1 < |lists| == |bits| + 1 && Aligned(|f|, |lists|) && Coalescing(f, x, c)
    requires Between(f[x := true], c, f, lists, bits) && page == AlignDown(x, c)
    ensures page < |f| && Aligned(page, c) && Xor(page, Pow2(c)) == OtherHalf(x, c)
    ensures AlignDown(x, c + 1) == if page < OtherHalf(x, c) then page else OtherHalf(x, c)
    ensures var i := Shr(page, c + 1);
            i < |bits[c]| && bits[c][i] == RunFree(f, OtherHalf(x, c), c) == (OtherHalf(x, c) in lists[c])
    ensures (page == x || f[page]) && forall d: nat :: !InList(lists, page, d)
    ensures forall p: nat, d: nat | p < |f| && p != x && !f[p] :: !InList(lists, p, d)
  {
    AlignDownBounds(x, c);
    XorIsOtherHalf(page, c);
    PairBitReads(f, x, c, lists, bits);
    CoalescingInNoList(f, x, c, lists, bits);
    CoalescingTouches(f, x, c, lists, bits);
  }

  /** The loop files the run around x in class c and stops. */
  lemma FiledAt(f: Pages, x: nat, c: nat, lists: seq<seq<nat>>, bits: seq<seq<bool>>)
    requires c + 1 < |lists| == |bits| + 1 && Aligned(|f|, |lists|) && Coalescing(f, x, c)
    requires Between(f[x := true], c, f, lists, bits)
    requires !RunFree(f, OtherHalf(x, c), c)
    ensures var i := PairBit(x, c);
            i < |bits[c]| && Agrees(f[x := true], lists[c := [AlignDown(x, c)] + lists[c]], bits[c := bits[c][i := true]])
  {
    var g, i := f[x := true], PairBit(x, c);
    assert ClassAgrees(f, lists, bits, c);
    AlignedWeaken(|f|, |lists|, c + 1);
    FreedBits(f, x, c, bits[c]);
    FreedList(f, x, |lists|, c, lists[c]);
    MergeIff(f, x, c);
    FreedSameAbove(f, x, c + 1);
    var l, b := [AlignDown(x, c)] + lists[c], bits[c][i := true];
    RaiseBoundary(g, c, f, lists, bits, l, b);
    BetweenSame(g, c + 1, f, lists[c := l], bits[c := b]);
  }

  /** The loop removes the other half from its list and goes on with the parent. */
  lemma MergedAt(f: Pages, x: nat, c: nat, lists: seq<seq<nat>>, bits: seq<seq<bool>>, l: seq<nat>)
    requires c + 1 < |lists| == |bits| + 1 && Aligned(|f|, |lists|) && Coalescing(f, x, c)
    requires Between(f[x := true], c, f, lists, bits)
    requires RunFree(f, OtherHalf(x, c), c)
    requires forall p: nat :: p in l <==> p in lists[c] && p != OtherHalf(x, c)
    ensures var i := PairBit(x, c);
            i < |bits[c]| && Coalescing(f, x, c + 1) &&
            Between(f[x := true], c + 1, f, lists[c := l], bits[c := bits[c][i := false]])
  {
    assert ClassAgrees(f, lists, bits, c);
    AlignedWeaken(|f|, |lists|, c + 1);
    FreedBits(f, x, c, bits[c]);
    MergedList(f, x, |lists|, c, lists[c], l);
    RaiseBoundary(f[x := true], c, f, lists, bits, l, bits[c][PairBit(x, c) := false]);
  }

  /** In the top class there is nothing to merge with. */
  lemma FiledTop(f: Pages, x: nat, c: nat, lists: seq<seq<nat>>, bits: seq<seq<bool>>)
    requires c + 1 == |lists| == |bits| + 1 && Coalescing(f, x, c)
    requires Between(f[x := true], c, f, lists, bits)
    ensures Agrees(f[x := true], lists[c := [AlignDown(x, c)] + lists[c]], bits)
  {
    var g, l := f[x := true], [AlignDown(x, c)] + lists[c];
    assert ClassAgrees(f, lists, bits, c);
    FreedList(f, x, |lists|, c, lists[c]);
    RaiseBoundary(g, c, f, lists, bits, l, []);
    BetweenSame(g, c + 1, f, lists[c := l], bits);
  }

  // ---------------------------------------------------------------- taking the front of a block

  /** Pages [b, e) are taken from the front of the maximal run of class `top` at b. */
  ghost predicate Taking(f: Pages, k: nat, b: nat, top: nat, e: nat) {
    Block(f, k, b, top) && b < e <= b + Pow2(top)
  }

  function Taken(f: Pages, b: nat, e: nat): Pages
    requires b <= e <= |f|
  {
    WithRange(f, b, e, false)
  }

  lemma TakenSameAbove(f: Pages, k: nat, b: nat, top: nat, e: nat)
    requires Taking(f, k, b, top, e) && top + 1 < k
    ensures SameAt(f, Taken(f, b, e), top + 1)
  {
    var g, n := Taken(f, b, e), top + 1;
    AlignDownBounds(b, n);
    forall q: nat | Aligned(q, n) ensures RunFree(f, q, n) == RunFree(g, q, n) {
      if RunFree(f, q, n) && !RunFree(g, q, n) {
        Nested(b, top, q, n);
        AlignDownUnique(b, n, q);
        assert false;
      }
    }
  }

  /** Runs outside the block, and runs beyond e, keep their state. */
  lemma TakenElsewhere(f: Pages, b: nat, e: nat, q: nat, c: nat)
    requires b <= e <= |f| && (q + Pow2(c) <= b || e <= q)
    ensures RunFree(Taken(f, b, e), q, c) == RunFree(f, q, c)
  {
    var g := Taken(f, b, e);
    assert forall y | q <= y < q + Pow2(c) && y < |f| :: f[y] == g[y];
  }

  lemma TakenTop(f: Pages, k: nat, b: nat, top: nat, e: nat, l: seq<nat>, l': seq<nat>)
    requires Taking(f, k, b, top, e) && ListAgrees(f, k, top, l)
    requires forall p: nat :: p in l' <==> p in l && p != b
    ensures ListAgrees(Taken(f, b, e), k, top, l')
  {
    var g := Taken(f, b, e);
    assert !g[b];
    if top + 1 < k { TakenSameAbove(f, k, b, top, e); }
    forall p: nat ensures p in l' <==> Block(g, k, p, top) {
      AlignDownBounds(p, top + 1);
      if p != b && Aligned(p, top) {
        Nested(p, top, b, top);
        Nested(b, top, p, top);
        TakenElsewhere(f, b, e, p, top);
      }
    }
  }

  lemma TakenTopBit(f: Pages, k: nat, b: nat, top: nat, e: nat, bits: seq<bool>)
    requires top + 1 < k && Aligned(|f|, top + 1) && Taking(f, k, b, top, e) && BitsAgree(f, top, bits)
    ensures var i := Shr(b, top + 1);
            i < |bits| && bits[i] && BitsAgree(Taken(f, b, e), top, bits[i := false])
  {
    var g, up := Taken(f, b, e), AlignDown(b, top + 1);
    AlignDownBounds(b, top + 1);
    ShrAlignDown(b, top + 1);
    AlignedParent(b, top);
    AlignedHalves(up, top);
    RunFreeHalves(f, up, top);
    assert !g[b];
    TakenElsewhere(f, b, e, if b == up then up + Pow2(top) else up, top);
    forall p: nat | Aligned(p, top + 1) && p != up ensures OneHalfFree(g, p, top) == OneHalfFree(f, p, top) {
      TakenPairApart(f, b, e, p, up, top);
    }
    UpdateBit(f, g, top, bits, up);
  }

  lemma TakenPairApart(f: Pages, b: nat, e: nat, p: nat, q: nat, c: nat)
    requires b <= e <= |f| && Aligned(p, c + 1) && Aligned(q, c + 1) && p != q
    requires q <= b && e <= q + Pow2(c + 1)
    ensures OneHalfFree(Taken(f, b, e), p, c) == OneHalfFree(f, p, c)
  {
    Nested(p, c + 1, q, c + 1);
    Nested(q, c + 1, p, c + 1);
    TakenElsewhere(f, b, e, p, c);
    TakenElsewhere(f, b, e, p + Pow2(c), c);
  }

  /** The parent, of class c + 1, of the last taken page; only its right half can be re-filed. */
  function SplitParent(e: nat, c: nat): nat
    requires e > 0
  {
    AlignDown(e - 1, c + 1)
  }

  predicate Refiled(e: nat, c: nat)
    requires e > 0
  {
    e <= SplitParent(e, c) + Pow2(c)
  }

  function SplitList(e: nat, c: nat, l: seq<nat>): seq<nat>
    requires e > 0
  {
    if Refiled(e, c) then [SplitParent(e, c) + Pow2(c)] + l else l
  }

  lemma SplitParentInside(f: Pages, k: nat, b: nat, top: nat, e: nat, c: nat)
    requires Taking(f, k, b, top, e) && c < top
    ensures var up := SplitParent(e, c);
            b <= up < e <= up + Pow2(c + 1) <= b + Pow2(top) && Aligned(up, c + 1)
    ensures RunFree(f, SplitParent(e, c), c + 1)
  {
    AlignDownBounds(e - 1, c + 1);
    Nested(SplitParent(e, c), c + 1, b, top);
    NestedAlignDown(e - 1, c + 1, top);
    AlignDownUnique(e - 1, top, b);
  }

  /** The state of an aligned run of class c below `top` after the first pages are taken. */
  lemma TakenRun(f: Pages, k: nat, b: nat, top: nat, e: nat, q: nat, c: nat)
    requires Taking(f, k, b, top, e) && c <= top && Aligned(q, c)
    ensures RunFree(Taken(f, b, e), q, c) <==> RunFree(f, q, c) && !(b <= q < e)
  {
    Nested(q, c, b, top);
    if q + Pow2(c) <= b || e <= q {
      TakenElsewhere(f, b, e, q, c);
    } else {
      assert !Taken(f, b, e)[q];
    }
  }

  lemma SplitLists(f: Pages, k: nat, b: nat, top: nat, e: nat, c: nat, l: seq<nat>)
    requires c < top && Taking(f, k, b, top, e) && ListAgrees(f, k, c, l)
    ensures Refiled(e, c) ==> SplitParent(e, c) + Pow2(c) !in l
    ensures ListAgrees(Taken(f, b, e), k, c, SplitList(e, c, l))
  {
    var up := SplitParent(e, c);
    SplitParentInside(f, k, b, top, e, c);
    AlignedHalves(up, c);
    AlignDownUnique(up + Pow2(c), c + 1, up);
    forall p: nat ensures p in SplitList(e, c, l) <==> Block(Taken(f, b, e), k, p, c) {
      if Aligned(p, c) { SplitListAt(f, k, b, top, e, c, l, p, up, AlignDown(p, c + 1)); }
    }
  }

  lemma SplitListAt(f: Pages, k: nat, b: nat, top: nat, e: nat, c: nat, l: seq<nat>, p: nat, up: nat, pp: nat)
    requires c < top && Taking(f, k, b, top, e) && ListAgrees(f, k, c, l) && Aligned(p, c)
    requires up == SplitParent(e, c) && pp == AlignDown(p, c + 1)
    ensures p in SplitList(e, c, l) <==> Block(Taken(f, b, e), k, p, c)
  {
    SplitBlock(f, k, b, top, e, c, p, up, pp);
    assert p in SplitList(e, c, l) <==> p in l || (Refiled(e, c) && p == up + Pow2(c));
    assert p in l <==> Block(f, k, p, c);
  }

  /** A maximal block of the split is one from before, or the re-filed right half. */
  lemma SplitBlock(f: Pages, k: nat, b: nat, top: nat, e: nat, c: nat, p: nat, up: nat, pp: nat)
    requires c < top && Taking(f, k, b, top, e) && Aligned(p, c)
    requires up == SplitParent(e, c) && pp == AlignDown(p, c + 1)
    ensures Block(Taken(f, b, e), k, p, c) <==> Block(f, k, p, c) || (Refiled(e, c) && p == up + Pow2(c))
  {
    AlignDownBounds(p, c + 1);
    TakenRun(f, k, b, top, e, p, c);
    TakenRun(f, k, b, top, e, pp, c + 1);
    if Block(f, k, p, c) { SmallBlockOutside(f, k, b, top, e, p, c); }
    OnlyRightHalf(f, k, b, top, e, c, p, up, pp);
  }

  /** Smaller maximal blocks lie outside the block that is split. */
  lemma SmallBlockOutside(f: Pages, k: nat, b: nat, top: nat, e: nat, p: nat, c: nat)
    requires c < top && Taking(f, k, b, top, e) && Block(f, k, p, c)
    ensures !(b <= p < b + Pow2(top))
  {
    AlignDownBounds(p, c + 1);
    if b <= p < b + Pow2(top) { InsideRun(f, b, top, AlignDown(p, c + 1), c + 1, p); }
  }

  /** Only the right half of the pair around the boundary is whole while its parent is not. */
  lemma OnlyRightHalf(f: Pages, k: nat, b: nat, top: nat, e: nat, c: nat, p: nat, up: nat, pp: nat)
    requires c < top && Taking(f, k, b, top, e) && Aligned(p, c)
    requires up == SplitParent(e, c) && pp == AlignDown(p, c + 1)
    ensures (RunFree(f, p, c) && RunFree(f, pp, c + 1) && b <= pp < e <= p) <==> (Refiled(e, c) && p == up + Pow2(c))
  {
    SplitParentInside(f, k, b, top, e, c);
    AlignedHalves(up, c);
    AlignDownUnique(up + Pow2(c), c + 1, up);
    AlignDownBounds(p, c + 1);
    if b <= pp < e <= p {
      AlignDownUnique(e - 1, c + 1, pp);
      AlignedParent(p, c);
    }
  }

  lemma InsideRun(f: Pages, b: nat, top: nat, pp: nat, n: nat, p: nat)
    requires n <= top && Aligned(b, top) && Aligned(pp, n) && RunFree(f, b, top)
    requires b <= p < b + Pow2(top) && pp <= p < pp + Pow2(n)
    ensures b <= pp && pp + Pow2(n) <= b + Pow2(top) && RunFree(f, pp, n)
  {
    NestedAlignDown(p, n, top);
    AlignDownUnique(p, n, pp);
    AlignDownUnique(p, top, b);
  }

  lemma SplitPair(f: Pages, k: nat, b: nat, top: nat, e: nat, c: nat, p: nat)
    requires c < top && Taking(f, k, b, top, e) && Aligned(p, c + 1)
    ensures OneHalfFree(Taken(f, b, e), p, c) ==
            if p == SplitParent(e, c) then Refiled(e, c) else OneHalfFree(f, p, c)
  {
    var up, n := SplitParent(e, c), c + 1;
    SplitParentInside(f, k, b, top, e, c);
    RunFreeHalves(f, up, c);
    AlignedHalves(p, c);
    TakenRun(f, k, b, top, e, p, c);
    TakenRun(f, k, b, top, e, p + Pow2(c), c);
    if p != up {
      Nested(p, n, b, top);
      Nested(up, n, p, n);
      Nested(p, n, up, n);
      if b <= p < e { InsideRun(f, b, top, p, n, p); RunFreeHalves(f, p, c); }
    }
  }

  lemma SplitBits(f: Pages, k: nat, b: nat, top: nat, e: nat, c: nat, bits: seq<bool>)
    requires c < top && Aligned(|f|, c + 1) && Taking(f, k, b, top, e) && BitsAgree(f, c, bits)
    ensures var i := Shr(SplitParent(e, c), c + 1);
            i < |bits| && !bits[i] && BitsAgree(Taken(f, b, e), c, bits[i := Refiled(e, c)])
  {
    var up := SplitParent(e, c);
    SplitParentInside(f, k, b, top, e, c);
    RunFreeHalves(f, up, c);
    forall p: nat | Aligned(p, c + 1)
      ensures OneHalfFree(Taken(f, b, e), p, c) == if p == up then Refiled(e, c) else OneHalfFree(f, p, c)
    {
      SplitPair(f, k, b, top, e, c, p);
    }
    UpdateBit(f, Taken(f, b, e), c, bits, up);
  }

  /** Once the boundary is aligned, no smaller class gets anything. */
  lemma AlignedBoundaryStops(e: nat, n: nat, c: nat)
    requires e > 0 && Aligned(e, n) && c < n
    ensures !Refiled(e, c)
  {
    AlignedWeaken(e, n, c + 1);
    AlignDownBounds(e - 1, c + 1);
    Nested(e, c + 1, SplitParent(e, c), c + 1);
    Nested(SplitParent(e, c), c + 1, e, c + 1);
  }

  /** The re-filed tail of a split is the binary expansion of its length. */
  lemma {:induction false} SplitTailIsBinary(b: nat, top: nat, e: nat, c: nat)
    requires Aligned(b, top) && b < e <= b + Pow2(top) && c < top
    ensures Refiled(e, c) <==> Shr(b + Pow2(top) - e, c) % 2 == 1
  {
    var h := (e + 1) / 2;
    if c == 0 {
      assert AlignDown(e - 1, 1) == 2 * AlignDown((e - 1) / 2, 0);
      assert AlignDown((e - 1) / 2, 0) == (e - 1) / 2;
      assert Shr(b + Pow2(top) - e, 0) == b + Pow2(top) - e;
    } else {
      SplitTailIsBinary(b / 2, top - 1, h, c - 1);
      assert (e - 1) / 2 == h - 1;
      assert (b + Pow2(top) - e) / 2 == b / 2 + Pow2(top - 1) - h;
    }
  }

  /** Split exactness: after the pages before e are taken from the front of a block, the blocks in
      its place are one for each binary digit of what is left, in the positions of the digits. */
  lemma TailBlocks(f: Pages, k: nat, b: nat, top: nat, e: nat, p: nat, c: nat)
    requires Taking(f, k, b, top, e)
    ensures Block(Taken(f, b, e), k, p, c) && b <= p < b + Pow2(top) <==>
            c < top && Shr(b + Pow2(top) - e, c) % 2 == 1 && p == SplitParent(e, c) + Pow2(c)
  {
    if c < top {
      SplitTailIsBinary(b, top, e, c);
      SplitParentInside(f, k, b, top, e, c);
      AlignedHalves(SplitParent(e, c), c);
      if Aligned(p, c) {
        SplitBlock(f, k, b, top, e, c, p, SplitParent(e, c), AlignDown(p, c + 1));
        if Block(f, k, p, c) { SmallBlockOutside(f, k, b, top, e, p, c); }
      }
    } else if Aligned(p, c) && b <= p < b + Pow2(top) {
      AlignedWeaken(p, c, top);
      Nested(p, top, b, top);
      Nested(b, top, p, top);
      assert !Taken(f, b, e)[b];
    }
  }

  // ---------------------------------------------------------------- one allocation

  /** The buddy bits after the pair of the class-`top` block at b has lost it. */
  function WithoutBlock(bits: seq<seq<bool>>, top: nat, b: nat): (r: seq<seq<bool>>)
    requires top < |bits| ==> Shr(b, top + 1) < |bits[top]|
    ensures |r| == |bits|
  {
    if top < |bits| then bits[top := bits[top][Shr(b, top + 1) := false]] else bits
  }

  /** The first block of the top class is popped and its pair's bit cleared. */
  lemma TopTaken(f: Pages, b: nat, top: nat, e: nat, lists: seq<seq<nat>>, bits: seq<seq<bool>>, l: seq<nat>)
    requires |lists| == |bits| + 1 && Aligned(|f|, |lists|) && Agrees(f, lists, bits)
    requires Taking(f, |lists|, b, top, e)
    requires forall p: nat :: p in l <==> p in lists[top] && p != b
    ensures top < |bits| ==> Shr(b, top + 1) < |bits[top]| && bits[top][Shr(b, top + 1)]
    ensures Between(f, top, Taken(f, b, e), lists[top := l], WithoutBlock(bits, top, b))
  {
    var g, k := Taken(f, b, e), |lists|;
    assert ClassAgrees(f, lists, bits, top);
    TakenTop(f, k, b, top, e, lists[top], l);
    if top < |bits| {
      AlignedWeaken(|f|, k, top + 1);
      TakenTopBit(f, k, b, top, e, bits[top]);
      TakenSameAbove(f, k, b, top, e);
    }
    forall d: nat | d < k && top + 1 <= d ensures ClassAgrees(g, lists, bits, d) {
      assert ClassAgrees(f, lists, bits, d);
      SameAtUp(f, g, top + 1, d);
      SameAtAgrees(f, g, k, d, lists[d], if d < |bits| then bits[d] else []);
    }
    LowerBoundary(f, top, g, lists, bits, l, if top < |bits| then bits[top][Shr(b, top + 1) := false] else []);
  }

  /** Popping the first block of a list without repetitions. */
  lemma HeadTaken(f: Pages, b: nat, top: nat, e: nat, lists: seq<seq<nat>>, bits: seq<seq<bool>>)
    requires |lists| == |bits| + 1 && Aligned(|f|, |lists|) && Agrees(f, lists, bits)
    requires top < |lists| && lists[top] != [] && b == lists[top][0] && b !in lists[top][1..]
    requires b < e <= b + Pow2(top)
    ensures Taking(f, |lists|, b, top, e) && AllIn(f, b, e)
    ensures top < |bits| ==> Shr(b, top + 1) < |bits[top]| && bits[top][Shr(b, top + 1)]
    ensures Between(f, top, Taken(f, b, e), lists[top := lists[top][1..]], WithoutBlock(bits, top, b))
  {
    assert ClassAgrees(f, lists, bits, top);
    assert b in lists[top];
    TopTaken(f, b, top, e, lists, bits, lists[top][1..]);
  }

  /** Only free pages are in a list. */
  lemma BetweenListsFree(below: Pages, c: nat, above: Pages, lists: seq<seq<nat>>, bits: seq<seq<bool>>)
    requires |below| == |above| && |lists| == |bits| + 1 && Between(below, c, above, lists, bits)
    requires forall p: nat | p < |below| && above[p] :: below[p]
    ensures forall p: nat, d: nat | p < |below| && !below[p] :: !InList(lists, p, d)
  {
    forall p: nat, d: nat | p < |below| && !below[p] ensures !InList(lists, p, d) {
      if d < |lists| {
        assert ClassAgrees(if d < c then below else above, lists, bits, d);
        assert !above[p];
      }
    }
  }

  /** One round of the split loop, at child class c. */
  lemma SplitAt(f: Pages, b: nat, top: nat, e: nat, c: nat, lists: seq<seq<nat>>, bits: seq<seq<bool>>)
    requires c < top < |lists| == |bits| + 1 && Aligned(|f|, |lists|) && Taking(f, |lists|, b, top, e)
    requires Between(f, c + 1, Taken(f, b, e), lists, bits)
    ensures var i := Shr(SplitParent(e, c), c + 1);
            i < |bits[c]| && !bits[c][i] &&
            Between(f, c, Taken(f, b, e), lists[c := SplitList(e, c, lists[c])],
                    bits[c := bits[c][i := Refiled(e, c)]])
  {
    var g, i, l := Taken(f, b, e), Shr(SplitParent(e, c), c + 1), SplitList(e, c, lists[c]);
    assert ClassAgrees(f, lists, bits, c);
    var flags := SplitClass(f, |lists|, b, top, e, c, lists[c], bits[c], l, i);
    LowerBoundary(f, c, g, lists, bits, l, flags);
    assert WithBits(bits, c, flags) == bits[c := flags];
  }

  lemma SplitClass(f: Pages, k: nat, b: nat, top: nat, e: nat, c: nat, list: seq<nat>, flags: seq<bool>, l: seq<nat>, i: nat)
    returns (after: seq<bool>)
    requires c < top < k && Aligned(|f|, k) && Taking(f, k, b, top, e)
    requires ListAgrees(f, k, c, list) && BitsAgree(f, c, flags)
    requires l == SplitList(e, c, list) && i == Shr(SplitParent(e, c), c + 1)
    ensures ListAgrees(Taken(f, b, e), k, c, l) && BitsAgree(Taken(f, b, e), c, after)
    ensures i < |flags| && !flags[i] && after == flags[i := Refiled(e, c)]
  {
    AlignedWeaken(|f|, k, c + 1);
    SplitLists(f, k, b, top, e, c, list);
    SplitBits(f, k, b, top, e, c, flags);
    after := flags[i := Refiled(e, c)];
  }

  lemma TailInNoList(f: Pages, b: nat, top: nat, e: nat, c: nat, lists: seq<seq<nat>>, bits: seq<seq<bool>>, tail: nat)
    requires c < top < |lists| == |bits| + 1 && Taking(f, |lists|, b, top, e)
    requires Between(f, c + 1, Taken(f, b, e), lists, bits)
    requires tail == SplitParent(e, c) + Pow2(c)
    ensures tail < |f| && f[tail] && forall d: nat :: !InList(lists, tail, d)
  {
    var g, k := Taken(f, b, e), |lists|;
    SplitParentInside(f, k, b, top, e, c);
    AlignedHalves(SplitParent(e, c), c);
    forall d: nat ensures !InList(lists, tail, d) {
      if d < k { assert ClassAgrees(if d < c + 1 then f else g, lists, bits, d); }
      TailIsNoBlock(f, g, k, b, top, e, c, tail, d);
    }
  }

  lemma TailIsNoBlock(f: Pages, g: Pages, k: nat, b: nat, top: nat, e: nat, c: nat, tail: nat, d: nat)
    requires c < top < k && Taking(f, k, b, top, e) && tail == SplitParent(e, c) + Pow2(c)
    ensures d < c + 1 ==> !Block(f, k, tail, d)
    ensures d >= c + 1 ==> !Block(g, k, tail, d)
  {
    SplitParentInside(f, k, b, top, e, c);
    AlignedHalves(SplitParent(e, c), c);
    if d < c + 1 {
      if Block(f, k, tail, d) { MaximalDisjoint(f, k, tail, d, b, top); }
    } else if Aligned(tail, d) {
      AlignedWeaken(tail, d, c + 1);
    }
  }

  /** A round that re-files nothing changes nothing. */
  lemma SplitSkip(f: Pages, b: nat, top: nat, e: nat, c: nat, lists: seq<seq<nat>>, bits: seq<seq<bool>>)
    requires c < top < |lists| == |bits| + 1 && Aligned(|f|, |lists|) && Taking(f, |lists|, b, top, e)
    requires Between(f, c + 1, Taken(f, b, e), lists, bits) && !Refiled(e, c)
    ensures Between(f, c, Taken(f, b, e), lists, bits)
  {
    SplitAt(f, b, top, e, c, lists, bits);
    var i := Shr(SplitParent(e, c), c + 1);
    assert lists[c := lists[c]] == lists;
    assert bits[c][i := false] == bits[c];
    assert bits[c := bits[c]] == bits;
  }

  lemma SplitListRefiled(e: nat, c: nat, l: seq<nat>, tail: nat)
    requires e > 0 && Refiled(e, c) && tail == SplitParent(e, c) + Pow2(c)
    ensures SplitList(e, c, l) == [tail] + l
  {
  }

  /** A round that re-files the right half of the split block. */
  lemma SplitRefile(f: Pages, b: nat, top: nat, e: nat, c: nat, lists: seq<seq<nat>>, bits: seq<seq<bool>>,
                    tail: nat, i: nat)
    requires c < top < |lists| == |bits| + 1 && Aligned(|f|, |lists|) && Taking(f, |lists|, b, top, e)
    requires Between(f, c + 1, Taken(f, b, e), lists, bits) && Refiled(e, c)
    requires tail == SplitParent(e, c) + Pow2(c) && i == Shr(SplitParent(e, c), c + 1)
    ensures i < |bits[c]| && Between(f, c, Taken(f, b, e), lists[c := [tail] + lists[c]], bits[c := bits[c][i := true]])
  {
    SplitAt(f, b, top, e, c, lists, bits);
    SplitListRefiled(e, c, lists[c], tail);
  }

  /** The headers such a round writes belong to free pages. */
  lemma RefileTouches(f: Pages, b: nat, top: nat, e: nat, c: nat, lists: seq<seq<nat>>, bits: seq<seq<bool>>, tail: nat)
    requires c < top < |lists| == |bits| + 1 && Taking(f, |lists|, b, top, e)
    requires Between(f, c + 1, Taken(f, b, e), lists, bits) && tail == SplitParent(e, c) + Pow2(c)
    ensures tail < |f| && f[tail] && Aligned(tail, c) && forall d: nat :: !InList(lists, tail, d)
    ensures forall p: nat, d: nat | p < |f| && !f[p] :: !InList(lists, p, d)
  {
    TailInNoList(f, b, top, e, c, lists, bits, tail);
    BetweenListsFree(f, c + 1, Taken(f, b, e), lists, bits);
    SplitParentInside(f, |lists|, b, top, e, c);
    AlignedHalves(SplitParent(e, c), c);
  }

  /** The block around the boundary, one class down. */
  lemma SplitStep(e: nat, c: nat)
    requires e > 0
    ensures AlignDown(e - 1, c) == if Refiled(e, c) then SplitParent(e, c) else SplitParent(e, c) + Pow2(c)
  {
    AlignDownBounds(e - 1, c + 1);
    AlignedHalves(SplitParent(e, c), c);
    AlignDownUnique(e - 1, c, if Refiled(e, c) then SplitParent(e, c) else SplitParent(e, c) + Pow2(c));
  }

  /** What the split loop sees at child class c, with `remaining` pages to take from `page`. */
  lemma SplitRound(f: Pages, b: nat, top: nat, e: nat, c: nat, lists: seq<seq<nat>>, bits: seq<seq<bool>>,
                   page: nat, remaining: nat)
    requires c < top < |lists| == |bits| + 1 && Aligned(|f|, |lists|) && Taking(f, |lists|, b, top, e)
    requires Between(f, c + 1, Taken(f, b, e), lists, bits)
    requires page == AlignDown(e - 1, c + 1) && remaining == e - page
    ensures Aligned(page, c) && Shr(page, c + 1) < |bits[c]| && !bits[c][Shr(page, c + 1)]
    ensures Refiled(e, c) <==> remaining <= Pow2(c)
    ensures AlignDown(e - 1, c) == (if Refiled(e, c) then page else page + Pow2(c)) < e
    ensures !Refiled(e, c) ==> Between(f, c, Taken(f, b, e), lists, bits)
    ensures remaining == Pow2(c) ==> Aligned(e, c)
  {
    AlignDownBounds(e - 1, c + 1);
    AlignedHalves(page, c);
    SplitStep(e, c);
    SplitAt(f, b, top, e, c, lists, bits);
    if !Refiled(e, c) { SplitSkip(f, b, top, e, c, lists, bits); }
  }

  /** When the boundary is aligned to class c, the smaller classes stay as they are. */
  lemma {:induction false} SplitDone(f: Pages, b: nat, top: nat, e: nat, c: nat, lists: seq<seq<nat>>, bits: seq<seq<bool>>)
    requires c <= top < |lists| == |bits| + 1 && Aligned(|f|, |lists|) && Taking(f, |lists|, b, top, e)
    requires Between(f, c, Taken(f, b, e), lists, bits) && Aligned(e, c)
    ensures Agrees(Taken(f, b, e), lists, bits)
    decreases c
  {
    if c == 0 {
      forall d: nat | d < |lists| ensures ClassAgrees(Taken(f, b, e), lists, bits, d) {}
    } else {
      AlignedBoundaryStops(e, c, c - 1);
      SplitSkip(f, b, top, e, c - 1, lists, bits);
      AlignedWeaken(e, c, c - 1);
      SplitDone(f, b, top, e, c - 1, lists, bits);
    }
  }

  // ---------------------------------------------------------------- calls

  datatype Event = Allocated(begin: nat, count: nat) | Released(begin: nat, count: nat)

  predicate Covers(e: Event, x: nat) {
    e.begin <= x < e.begin + e.count
  }

  /** What an allocation and a release do to the free pages. */
  predicate Step(f: Pages, e: Event, g: Pages) {
    e.begin + e.count <= |f| &&
    match e
    case Allocated(b, n) => AllIn(f, b, b + n) && g == WithRange(f, b, b + n, false)
    case Released(b, n) => NoneIn(f, b, b + n) && g == WithRange(f, b, b + n, true)
  }

  // ---------------------------------------------------------------- what is granted

  /** Some naturally aligned run of 2^c pages is free. */
  ghost predicate HasRun(f: Pages, c: nat) {
    exists p: nat :: Aligned(p, c) && RunFree(f, p, c)
  }

  /** The size of the largest naturally aligned free power-of-two run of class below c, or 0. */
  ghost function LargestRun(f: Pages, c: nat): nat {
    if c == 0 then 0 else if HasRun(f, c - 1) then Pow2(c - 1) else LargestRun(f, c - 1)
  }

  /** The number of pages an allocation gets when the free pages are f. */
  ghost function Granted(f: Pages, k: nat, count: int, exact: bool): nat
    requires count < TWO64
  {
    if count <= 0 then 0
    else
      var m := SmallestClass(count);
      if m < k && HasRun(f, m) then count else if exact then 0 else LargestRun(f, m)
  }

  function SmallestClass(count: int): nat
    requires 0 < count < TWO64
  {
    Pow2Of64();
    SmallestGreaterPower2(count)
  }

  /** LargestRun is the size of the largest aligned free run below class c. */
  lemma {:induction false} LargestRunIsLargest(f: Pages, c: nat) returns (j: nat)
    requires LargestRun(f, c) > 0
    ensures j < c && HasRun(f, j) && LargestRun(f, c) == Pow2(j)
    ensures forall i | j < i < c :: !HasRun(f, i)
  {
    j := c - 1;
    if !HasRun(f, j) { j := LargestRunIsLargest(f, c - 1); }
  }

  /** An inexact request fails exactly when nothing at all is free. */
  lemma {:induction false} NoRunIffNothingFree(f: Pages, c: nat)
    requires c > 0
    ensures LargestRun(f, c) == 0 <==> NoneIn(f, 0, |f|)
  {
    if NoneIn(f, 0, |f|) {
      forall i: nat ensures !HasRun(f, i) {
        forall p: nat ensures !RunFree(f, p, i) { assert p < |f| ==> !f[p]; }
      }
      if LargestRun(f, c) > 0 { var j := LargestRunIsLargest(f, c); }
    } else {
      var x: nat :| x < |f| && f[x];
      assert Aligned(x, 0) && RunFree(f, x, 0);
      LargestAtLeast(f, c, 0);
    }
  }

  lemma {:induction false} LargestAtLeast(f: Pages, c: nat, i: nat)
    requires i < c && HasRun(f, i)
    ensures LargestRun(f, c) >= Pow2(i)
  {
    if HasRun(f, c - 1) {
      Pow2Monotone(i, c - 1);
    } else {
      LargestAtLeast(f, c - 1, i);
    }
  }

  /** The n pages from p on are free, and p is a multiple of n. */
  predicate FreeRun(f: Pages, p: nat, n: nat) {
    n > 0 && p % n == 0 && p + n <= |f| && forall x: nat | p <= x < p + n :: f[x]
  }

  /** Some free aligned run of one of the k classes has room for `count` pages. */
  ghost predicate CanHold(f: Pages, k: nat, count: int) {
    exists p: nat, c: nat :: c < k && count <= Pow2(c) && FreeRun(f, p, Pow2(c))
  }

  /** No free aligned run of one of the k classes is longer than n. */
  ghost predicate NoneLonger(f: Pages, k: nat, n: nat) {
    forall p: nat, c: nat :: c < k && FreeRun(f, p, Pow2(c)) ==> Pow2(c) <= n
  }

  lemma FreeRunIsRun(f: Pages, p: nat, c: nat)
    ensures FreeRun(f, p, Pow2(c)) <==> Aligned(p, c) && RunFree(f, p, c)
  {
    AlignedIsMod(p, c);
  }

  lemma SmallestClassIs(count: int)
    requires 0 < count < TWO64
    ensures var m := SmallestClass(count); count <= Pow2(m) && forall j: nat | j < m :: Pow2(j) < count
  {
    Pow2Of64();
    SmallestGreaterPower2Least(count);
  }

  lemma CanHoldIsRun(f: Pages, k: nat, count: int)
    requires 0 < count < TWO64
    ensures CanHold(f, k, count) <==> SmallestClass(count) < k && HasRun(f, SmallestClass(count))
  {
    var m := SmallestClass(count);
    SmallestClassIs(count);
    if m < k && HasRun(f, m) {
      var p: nat :| Aligned(p, m) && RunFree(f, p, m);
      FreeRunIsRun(f, p, m);
    }
    if p: nat, c: nat :| c < k && count <= Pow2(c) && FreeRun(f, p, Pow2(c)) {
      FreeRunIsRun(f, p, c);
      AlignedWeaken(p, c, m);
      Pow2Monotone(m, c);
      RunFreeSub(f, p, m, p, c);
    }
  }

  /** What is granted, in terms of the free pages alone: the pages asked for if some aligned run has room
      for them; otherwise nothing to an exact request, and the longest aligned run to another one. */
  lemma GrantedIs(f: Pages, k: nat, count: int, exact: bool)
    requires 0 < count < TWO64 && count <= Pow2(k) && k > 0
    ensures CanHold(f, k, count) ==> Granted(f, k, count, exact) == count
    ensures !CanHold(f, k, count) && exact ==> Granted(f, k, count, exact) == 0
    ensures !CanHold(f, k, count) && !exact ==>
              Granted(f, k, count, exact) < count && NoneLonger(f, k, Granted(f, k, count, exact))
    ensures !exact ==> (Granted(f, k, count, exact) == 0 <==> !exists p: nat :: p < |f| && f[p])
  {
    CanHoldIsRun(f, k, count);
    if CanHold(f, k, count) {
      var p: nat, c: nat :| c < k && count <= Pow2(c) && FreeRun(f, p, Pow2(c));
      assert p < |f| && f[p];
    }
    if !CanHold(f, k, count) && !exact { FallbackIs(f, k, count, SmallestClass(count)); }
  }

  lemma FallbackIs(f: Pages, k: nat, count: int, m: nat)
    requires 0 < count < TWO64 && m == SmallestClass(count) && count <= Pow2(k) && k > 0 && !CanHold(f, k, count)
    ensures LargestRun(f, m) < count && NoneLonger(f, k, LargestRun(f, m))
    ensures LargestRun(f, m) == 0 <==> NoneIn(f, 0, |f|)
  {
    SmallestClassIs(count);
    if LargestRun(f, m) > 0 { var j := LargestRunIsLargest(f, m); }
    forall p: nat, c: nat | c < k && FreeRun(f, p, Pow2(c)) ensures Pow2(c) <= LargestRun(f, m) {
      FreeRunIsRun(f, p, c);
      if c >= m { Pow2Monotone(m, c); }
      LargestAtLeast(f, m, c);
    }
    if m > 0 {
      NoRunIffNothingFree(f, m);
    } else {
      forall x: nat | x < |f| ensures FreeRun(f, x, Pow2(0)) <==> f[x] {}
    }
  }

  /** The pages come from the front of a block of the smallest class that has one and is large
      enough for class m; failing that, they are a whole smaller block. */
  ghost predicate BestFit(f: Pages, k: nat, m: nat, begin: nat, pages: nat) {
    exists top: nat :: Block(f, k, begin, top) && pages <= Pow2(top) && NoneBetween(f, k, m, top) &&
                       (top < m ==> pages == Pow2(top))
  }

  ghost predicate NoneBetween(f: Pages, k: nat, m: nat, top: nat) {
    forall p: nat, d: nat :: m <= d < top ==> !Block(f, k, p, d)
  }

  /** No block with room for `count` pages is of a class below `top`. */
  ghost predicate SmallestFor(f: Pages, k: nat, count: int, top: nat) {
    forall p: nat, d: nat :: Block(f, k, p, d) && count <= Pow2(d) ==> top <= d
  }

  /** If some block has room for the request, the pages come from the front of a smallest one that has. */
  lemma BestFitIs(f: Pages, k: nat, count: int, begin: nat, pages: nat)
    requires 0 < count < TWO64 && pages == count && BestFit(f, k, SmallestClass(count), begin, pages)
    ensures exists top: nat :: Block(f, k, begin, top) && count <= Pow2(top) && SmallestFor(f, k, count, top)
  {
    var m := SmallestClass(count);
    SmallestClassIs(count);
    var top: nat :| Block(f, k, begin, top) && pages <= Pow2(top) && NoneBetween(f, k, m, top) &&
                    (top < m ==> pages == Pow2(top));
    forall p: nat, d: nat | Block(f, k, p, d) && count <= Pow2(d) ensures top <= d {
      assert d >= m && (d < top ==> !Block(f, k, p, d));
    }
  }

  lemma BestFitFound(lists: seq<seq<nat>>, f: Pages, m: nat, top: nat, pages: nat)
    requires Canonical(lists, f) && top < |lists| && lists[top] != []
    requires pages <= Pow2(top) && (top < m ==> pages == Pow2(top))
    requires forall d | m <= d < top :: lists[d] == []
    ensures BestFit(f, |lists|, m, lists[top][0], pages)
  {
    assert InList(lists, lists[top][0], top);
    forall p: nat, d: nat | m <= d < top ensures !Block(f, |lists|, p, d) {
      assert !InList(lists, p, d);
    }
  }

  lemma ListedRun(lists: seq<seq<nat>>, f: Pages, c: nat)
    requires Canonical(lists, f)
    ensures (exists d: nat :: c <= d < |lists| && lists[d] != []) <==> c < |lists| && HasRun(f, c)
  {
    if d: nat :| c <= d < |lists| && lists[d] != [] {
      var p := lists[d][0];
      assert InList(lists, p, d);
      AlignedWeaken(p, d, c);
      Pow2Monotone(c, d);
      RunFreeSub(f, p, c, p, d);
    }
    if c < |lists| && HasRun(f, c) {
      var p: nat :| Aligned(p, c) && RunFree(f, p, c);
      var q, d := MaximalAround(f, |lists|, p, c);
      assert InList(lists, q, d);
    }
  }

  // ---------------------------------------------------------------- counting

  /** The pages in n blocks of class c. */
  function BlockPages(n: nat, c: nat): nat {
    if n == 0 then 0 else BlockPages(n - 1, c) + Pow2(c)
  }

  /** The pages in the blocks listed in the classes below c. */
  function ListPages(lists: seq<seq<nat>>, c: nat): nat
    requires c <= |lists|
  {
    if c == 0 then 0 else ListPages(lists, c - 1) + BlockPages(|lists[c - 1]|, c - 1)
  }

  lemma {:induction false} ListPagesTail(lists: seq<seq<nat>>, d: nat, c: nat)
    requires d < |lists| && c <= |lists| && lists[d] != []
    ensures ListPages(lists, c) ==
            ListPages(lists[d := lists[d][1..]], c) + if d < c then Pow2(d) else 0
  {
    if c > 0 { ListPagesTail(lists, d, c - 1); }
  }

  lemma {:induction false} ListPagesEmpty(lists: seq<seq<nat>>, c: nat)
    requires c <= |lists| && forall d | 0 <= d < c :: lists[d] == []
    ensures ListPages(lists, c) == 0
  {
    if c > 0 { ListPagesEmpty(lists, c - 1); }
  }

  /** Disjoint blocks that exactly cover f. */
  ghost predicate Partition(lists: seq<seq<nat>>, f: Pages) {
    && (forall c | 0 <= c < |lists| :: Distinct(lists[c]))
    && (forall p: nat, c: nat :: InList(lists, p, c) ==> p + Pow2(c) <= |f|)
    && (forall p: nat, c: nat, q: nat, d: nat ::
          InList(lists, p, c) && InList(lists, q, d) && (p != q || c != d) ==>
            p + Pow2(c) <= q || q + Pow2(d) <= p)
    && (forall x: nat | x < |f| :: f[x] <==> Covered(lists, x))
  }

  lemma {:induction false} PartitionCounts(lists: seq<seq<nat>>, f: Pages)
    requires Partition(lists, f)
    ensures ListPages(lists, |lists|) == CountIn(f, 0, |f|)
    decreases ListPages(lists, |lists|)
  {
    if c: nat :| c < |lists| && lists[c] != [] {
      var b, lists' := lists[c][0], lists[c := lists[c][1..]];
      var e := b + Pow2(c);
      assert InList(lists, b, c);
      forall x: nat | b <= x < e ensures f[x] { assert Covered(lists, x); }
      PartitionWithout(lists, f, c);
      ListPagesTail(lists, c, |lists|);
      PartitionCounts(lists', WithRange(f, b, e, false));
      CountWithRange(f, b, e, false);
    } else {
      ListPagesEmpty(lists, |lists|);
      forall x: nat | x < |f| ensures !f[x] { assert f[x] <==> Covered(lists, x); }
      CountUniform(f, 0, |f|, false);
    }
  }

  lemma PartitionWithout(lists: seq<seq<nat>>, f: Pages, c: nat)
    requires Partition(lists, f) && c < |lists| && lists[c] != [] && lists[c][0] + Pow2(c) <= |f|
    ensures Partition(lists[c := lists[c][1..]], WithRange(f, lists[c][0], lists[c][0] + Pow2(c), false))
  {
    var b, lists' := lists[c][0], lists[c := lists[c][1..]];
    var e := b + Pow2(c);
    var g := WithRange(f, b, e, false);
    assert InList(lists, b, c);
    forall p: nat, d: nat ensures InList(lists', p, d) <==> InList(lists, p, d) && (p != b || d != c) {}
    forall x: nat | x < |f| ensures g[x] <==> Covered(lists', x) {
      if Covered(lists, x) {
        var p: nat, d: nat :| InList(lists, p, d) && p <= x < p + Pow2(d);
        if !(b <= x < e) { assert InList(lists', p, d); }
      }
      if Covered(lists', x) {
        var p: nat, d: nat :| InList(lists', p, d) && p <= x < p + Pow2(d);
        assert InList(lists, p, d);
      }
    }
  }

  /** The blocks in the lists hold exactly as many pages as are free. */
  lemma BlocksCountPages(lists: seq<seq<nat>>, f: Pages)
    requires |lists| > 0 && Canonical(lists, f) && forall c: nat | c < |lists| :: Distinct(lists[c])
    ensures ListPages(lists, |lists|) == CountIn(f, 0, |f|)
  {
    CanonicalTiles(lists, f);
    PartitionCounts(lists, f);
  }

  lemma NothingFree(f: Pages, lists: seq<seq<nat>>, bits: seq<seq<bool>>)
    requires |lists| == |bits| + 1 && NoneIn(f, 0, |f|)
    requires forall c | 0 <= c < |lists| :: lists[c] == []
    requires forall c | 0 <= c < |bits| :: |bits[c]| >= Shr(|f|, c + 1) && NoneIn(bits[c], 0, |bits[c]|)
    requires Aligned(|f|, |lists|)
    ensures Agrees(f, lists, bits)
  {
    forall c: nat | c < |lists| ensures ClassAgrees(f, lists, bits, c) {
      forall p: nat ensures !RunFree(f, p, c) {
        assert p < |f| ==> !f[p];
      }
      if c < |bits| {
        AlignedWeaken(|f|, |lists|, c + 1);
        forall p: nat ensures BitAgrees(f, c, bits[c], p) {
          if p < |f| && Aligned(p, c + 1) { ShrStrictlyMonotone(p, |f|, c + 1); }
        }
      }
    }
  }
}
