/** lib/bitset.h: a bit set stored in 64-bit words, whose range operations handle a word at a
    time in the middle of the range.  Its abstract value is a `seq<bool>`; the functions below
    say what each operation means on that value. */
module BitSets {
  import opened Bits

  function WithRange(f: seq<bool>, begin: nat, end: nat, value: bool): (g: seq<bool>)
    requires begin <= end <= |f|
    ensures |g| == |f|
    ensures forall x :: 0 <= x < |f| ==> g[x] == if begin <= x < end then value else f[x]
  {
    seq(|f|, x requires 0 <= x < |f| => if begin <= x < end then value else f[x])
  }

  predicate AllIn(f: seq<bool>, begin: nat, end: nat) {
    end <= |f| && forall x :: begin <= x < end ==> f[x]
  }

  predicate NoneIn(f: seq<bool>, begin: nat, end: nat) {
    end <= |f| && forall x :: begin <= x < end ==> !f[x]
  }

  /** Every page of f is one of g. */
  predicate Within(f: seq<bool>, g: seq<bool>) {
    |f| == |g| && forall x :: 0 <= x < |f| && f[x] ==> g[x]
  }

  /** The number of set bits in [begin, end). */
  function CountIn(f: seq<bool>, begin: nat, end: nat): nat
    requires begin <= end <= |f|
  {
    if begin == end then 0 else CountIn(f, begin, end - 1) + if f[end - 1] then 1 else 0
  }

  /** The number of one bits among the low n bits of w; `__builtin_popcountl` is n = 64. */
  function PopCount(w: nat, n: nat): nat {
    if n == 0 then 0 else PopCount(w, n - 1) + if Bit(w, n - 1) then 1 else 0
  }

  function WordBits(words: seq<u64>, count: nat): (f: seq<bool>)
    requires count <= 64 * |words|
    ensures |f| == count
    ensures forall i :: 0 <= i < count ==> f[i] == Bit(words[i / 64], i % 64)
  {
    seq(count, i requires 0 <= i < count => Bit(words[i / 64], i % 64))
  }

  lemma {:induction false} CountInSplit(f: seq<bool>, begin: nat, mid: nat, end: nat)
    requires begin <= mid <= end <= |f|
    ensures CountIn(f, begin, end) == CountIn(f, begin, mid) + CountIn(f, mid, end)
  {
    if mid < end { CountInSplit(f, begin, mid, end - 1); }
  }

  lemma {:induction false} CountSame(f: seq<bool>, g: seq<bool>, begin: nat, end: nat)
    requires begin <= end <= |f| && end <= |g| && forall x | begin <= x < end :: f[x] == g[x]
    ensures CountIn(f, begin, end) == CountIn(g, begin, end)
  {
    if begin < end { CountSame(f, g, begin, end - 1); }
  }

  lemma {:induction false} CountUniform(f: seq<bool>, begin: nat, end: nat, v: bool)
    requires begin <= end <= |f| && forall x | begin <= x < end :: f[x] == v
    ensures CountIn(f, begin, end) == if v then end - begin else 0
  {
    if begin < end { CountUniform(f, begin, end - 1, v); }
  }

  /** Flipping a range in which every bit was !v. */
  lemma CountWithRange(f: seq<bool>, begin: nat, end: nat, v: bool)
    requires begin <= end <= |f| && forall x | begin <= x < end :: f[x] != v
    ensures CountIn(WithRange(f, begin, end, v), 0, |f|) ==
            if v then CountIn(f, 0, |f|) + (end - begin) else CountIn(f, 0, |f|) - (end - begin)
  {
    var g, n := WithRange(f, begin, end, v), |f|;
    CountInSplit(f, 0, begin, n);
    CountInSplit(g, 0, begin, n);
    CountInSplit(f, begin, end, n);
    CountInSplit(g, begin, end, n);
    CountSame(f, g, 0, begin);
    CountSame(f, g, end, n);
    CountUniform(f, begin, end, !v);
    CountUniform(g, begin, end, v);
  }

  // ---------------------------------------------------------------- whole words

  /** All 64 bits of w are equal to v. */
  predicate Uniform(w: u64, v: bool) {
    forall k: nat | k < 64 :: Bit(w, k) == v
  }

  function Fill(v: bool): u64 {
    if v then Not(0) else 0
  }

  lemma FillUniform(v: bool)
    ensures Uniform(Fill(v), v)
  {
    forall k: nat | k < 64 ensures Bit(Fill(v), k) == v {
      BitOfZero(k);
      BitOfNot(0, k);
    }
  }

  /** Comparing a word with all zeros or all ones tests 64 bits at once. */
  lemma WordTest(w: u64, v: bool)
    ensures w == Fill(v) <==> Uniform(w, v)
  {
    FillUniform(v);
    if Uniform(w, v) {
      Pow2Of64();
      BitExtensionality(w, Fill(v), 64);
    }
  }

  lemma {:induction false} CountWord(words: seq<u64>, count: nat, begin: nat, i: nat, n: nat)
    requires count <= 64 * |words| && begin <= 64 * i && 64 * i + n <= count && n <= 64
    ensures CountIn(WordBits(words, count), begin, 64 * i + n) ==
            CountIn(WordBits(words, count), begin, 64 * i) + if n == 0 then 0 else PopCount(words[i], n)
  {
    if n > 0 {
      CountWord(words, count, begin, i, n - 1);
      assert (64 * i + n - 1) / 64 == i && (64 * i + n - 1) % 64 == n - 1;
    }
  }

  class BitSet {
    const data: array<u64>
    const count: nat

    ghost predicate Valid() {
      count <= 64 * data.Length
    }

    ghost function Value(): (f: seq<bool>)
      requires Valid()
      reads data
      ensures |f| == count
    {
      WordBits(data[..], count)
    }

    constructor FromRaw(data: array<u64>, count: nat)
      requires count <= 64 * data.Length
      ensures Valid() && this.data == data && this.count == count
    {
      this.data, this.count := data, count;
    }

    method Get(idx: nat) returns (r: bool)
      requires Valid() && idx < count
      ensures r == Value()[idx]
    {
      var v, offset := data[idx / 64], idx % 64;
      MaskTestsBit(offset, v);
      r := 0 != And(Pow2(offset), v);
    }

    method Set(idx: nat, value: bool)
      requires Valid() && idx < count
      modifies data
      ensures Value() == old(Value())[idx := value]
    {
      var i, offset := idx / 64, idx % 64;
      ghost var v := data[i];
      Pow2Of64();
      Pow2StrictlyMonotone(offset, 64);
      if value {
        OrBounded(data[i], Pow2(offset), 64);
        data[i] := Or(data[i], Pow2(offset));
      } else {
        AndBounded(data[i], Not(Pow2(offset)));
        data[i] := And(data[i], Not(Pow2(offset)));
      }
      forall k: nat | k < 64 ensures Bit(data[i], k) == if k == offset then value else Bit(v, k) {
        BitOfPow2(offset, k);
        BitOfNot(Pow2(offset), k);
        BitOfOr(v, Pow2(offset), k);
        BitOfAnd(v, Not(Pow2(offset)), k);
      }
      assert forall x | 0 <= x < count :: x / 64 == i && x % 64 == offset ==> x == idx;
    }

    /** The bit-by-bit loop of get_count. */
    method CountBits(begin: nat, end: nat) returns (n: nat)
      requires Valid() && begin <= end <= count
      ensures n == CountIn(Value(), begin, end)
    {
      n := 0;
      var i := begin;
      while i < end
        invariant begin <= i <= end && n == CountIn(Value(), begin, i)
      {
        var b := Get(i);
        if b { n := n + 1; }
        i := i + 1;
      }
    }

    /** The word-by-word loop of get_count. */
    method CountWords(first: nat, last: nat) returns (n: nat)
      requires Valid() && first <= last && 64 * last <= count
      ensures n == CountIn(Value(), 64 * first, 64 * last)
    {
      n := 0;
      var w := first;
      while w < last
        invariant first <= w <= last && n == CountIn(Value(), 64 * first, 64 * w)
      {
        CountWord(data[..], count, 64 * first, w, 64);
        n := n + PopCount(data[w], 64);
        w := w + 1;
        assert 64 * (w - 1) + 64 == 64 * w;
      }
    }

    method GetCount(begin: nat, end: nat) returns (n: nat)
      requires Valid() && begin <= end <= count
      ensures n == CountIn(Value(), begin, end)
    {
      var first, last := (begin + 63) / 64, end / 64;
      var fastBegin, fastEnd := 64 * first, 64 * last;
      if fastBegin >= fastEnd {
        n := CountBits(begin, end);
        return;
      }
      var front := CountBits(begin, fastBegin);
      var middle := CountWords(first, last);
      var back := CountBits(fastEnd, end);
      CountInSplit(Value(), begin, fastBegin, fastEnd);
      CountInSplit(Value(), begin, fastEnd, end);
      n := front + middle + back;
    }

    /** A word of the middle part holds the 64 values from 64 * w. */
    lemma WordValues(w: nat, v: bool)
      requires Valid() && 64 * w + 64 <= count
      ensures data[w] == Fill(v) <==> forall x | 64 * w <= x < 64 * w + 64 :: Value()[x] == v
    {
      WordTest(data[w], v);
      forall x | 64 * w <= x < 64 * w + 64 ensures Value()[x] == Bit(data[w], x - 64 * w) {
        assert x / 64 == w && x % 64 == x - 64 * w;
      }
      forall k: nat | k < 64 ensures Bit(data[w], k) == Value()[64 * w + k] {}
    }

    /** The bit-by-bit loop of get_all. */
    method AllBits(begin: nat, end: nat) returns (r: bool)
      requires Valid() && begin <= end <= count
      ensures r <==> AllIn(Value(), begin, end)
    {
      var i := begin;
      while i < end
        invariant begin <= i <= end && AllIn(Value(), begin, i)
      {
        var b := Get(i);
        if !b { return false; }
        i := i + 1;
      }
      return true;
    }

    method GetAll(begin: nat, end: nat) returns (r: bool)
      requires Valid() && begin <= end <= count
      ensures r <==> AllIn(Value(), begin, end)
    {
      var first, last := (begin + 63) / 64, end / 64;
      var fastBegin, fastEnd := 64 * first, 64 * last;
      if fastBegin >= fastEnd {
        r := AllBits(begin, end);
        return;
      }
      r := AllBits(begin, fastBegin);
      if !r { return; }
      var w := first;
      while w < last
        invariant first <= w <= last && AllIn(Value(), begin, 64 * w)
      {
        WordValues(w, true);
        if data[w] != Not(0) { return false; }
        w := w + 1;
      }
      r := AllBits(fastEnd, end);
    }

    /** The bit-by-bit loop of get_any. */
    method AnyBit(begin: nat, end: nat) returns (r: bool)
      requires Valid() && begin <= end <= count
      ensures r <==> !NoneIn(Value(), begin, end)
    {
      var i := begin;
      while i < end
        invariant begin <= i <= end && NoneIn(Value(), begin, i)
      {
        var b := Get(i);
        if b { return true; }
        i := i + 1;
      }
      return false;
    }

    method GetAny(begin: nat, end: nat) returns (r: bool)
      requires Valid() && begin <= end <= count
      ensures r <==> !NoneIn(Value(), begin, end)
    {
      var first, last := (begin + 63) / 64, end / 64;
      var fastBegin, fastEnd := 64 * first, 64 * last;
      if fastBegin >= fastEnd {
        r := AnyBit(begin, end);
        return;
      }
      r := AnyBit(begin, fastBegin);
      if r { return; }
      var w := first;
      while w < last
        invariant first <= w <= last && NoneIn(Value(), begin, 64 * w)
      {
        WordValues(w, false);
        if data[w] != 0 { return true; }
        w := w + 1;
      }
      r := AnyBit(fastEnd, end);
    }

    method SetAll(value: bool)
      requires Valid()
      modifies data
      ensures forall x | 0 <= x < count :: Value()[x] == value
    {
      var i, idx := 0, 0;
      FillUniform(value);
      while idx < count
        invariant idx == 64 * i && i <= data.Length
        invariant forall w | 0 <= w < i :: data[w] == Fill(value)
      {
        data[i] := 0;
        if value { data[i] := Not(data[i]); }
        i, idx := i + 1, idx + 64;
      }
    }

    /** The middle loop of set_range fills one word. */
    method FillWord(w: nat, value: bool)
      requires Valid() && 64 * w + 64 <= count
      modifies data
      ensures Value() == WithRange(old(Value()), 64 * w, 64 * w + 64, value)
    {
      FillUniform(value);
      data[w] := 0;
      if value { data[w] := Not(data[w]); }
      assert forall x | 0 <= x < count :: x / 64 == w <==> 64 * w <= x < 64 * w + 64;
    }

    /** The bit-by-bit loop of set_range. */
    method SetBits(begin: nat, end: nat, value: bool)
      requires Valid() && begin <= end <= count
      modifies data
      ensures Value() == WithRange(old(Value()), begin, end, value)
    {
      var i := begin;
      while i < end
        invariant begin <= i <= end
        invariant Value() == WithRange(old(Value()), begin, i, value)
      {
        Set(i, value);
        i := i + 1;
      }
    }

    /** The word-by-word loop of set_range. */
    method SetWords(first: nat, last: nat, value: bool)
      requires Valid() && first <= last && 64 * last <= count
      modifies data
      ensures Value() == WithRange(old(Value()), 64 * first, 64 * last, value)
    {
      var w := first;
      while w < last
        invariant first <= w <= last
        invariant Value() == WithRange(old(Value()), 64 * first, 64 * w, value)
      {
        FillWord(w, value);
        w := w + 1;
      }
    }

    method SetRange(begin: nat, end: nat, value: bool)
      requires Valid() && begin <= end <= count
      modifies data
      ensures Value() == WithRange(old(Value()), begin, end, value)
    {
      var first, last := (begin + 63) / 64, end / 64;
      var fastBegin, fastEnd := 64 * first, 64 * last;
      if fastBegin >= fastEnd {
        SetBits(begin, end, value);
        return;
      }
      SetBits(begin, fastBegin, value);
      SetWords(first, last, value);
      SetBits(fastEnd, end, value);
    }
  }
}
