/** Unsigned machine arithmetic on naturals: powers of two, shifts, alignment and the
    bitwise operators.  Shifts and alignment are defined by halving, so that proofs about
    them are inductions over linear arithmetic; the lemmas named `...IsDivision` and
    `...IsMod` tie them to the usual operators. */
module Bits {

  function Pow2(n: nat): (r: nat)
    ensures r >= 1
  {
    if n == 0 then 1 else 2 * Pow2(n - 1)
  }

  /** `v >> n` */
  function Shr(v: nat, n: nat): nat {
    if n == 0 then v else Shr(v / 2, n - 1)
  }

  /** `v` is a multiple of `1 << n`: is_aligned */
  predicate Aligned(v: nat, n: nat) {
    n == 0 || (v % 2 == 0 && Aligned(v / 2, n - 1))
  }

  /** The greatest multiple of `1 << n` that is at most `v`: align_down */
  function AlignDown(v: nat, n: nat): nat {
    if n == 0 then v else 2 * AlignDown(v / 2, n - 1)
  }

  const TWO64: nat := 0x1_0000_0000_0000_0000

  /** A machine word: u64 */
  type u64 = w: nat | w < TWO64

  /** Bit k of v. */
  predicate Bit(v: nat, k: nat) {
    if k == 0 then v % 2 == 1 else Bit(v / 2, k - 1)
  }

  /** `a | b` */
  function Or(a: nat, b: nat): nat {
    if a == 0 && b == 0 then 0 else (if a % 2 == 1 || b % 2 == 1 then 1 else 0) + 2 * Or(a / 2, b / 2)
  }

  /** `a & b` */
  function And(a: nat, b: nat): nat {
    if a == 0 || b == 0 then 0 else (if a % 2 == 1 && b % 2 == 1 then 1 else 0) + 2 * And(a / 2, b / 2)
  }

  /** `~w` */
  function Not(w: u64): u64 {
    TWO64 - 1 - w
  }

  /** `a ^ b` */
  function Xor(a: nat, b: nat): nat {
    if a == 0 && b == 0 then 0 else (a + b) % 2 + 2 * Xor(a / 2, b / 2)
  }

  lemma {:induction false} Pow2Monotone(a: nat, b: nat)
    requires a <= b
    ensures Pow2(a) <= Pow2(b)
  {
    if a < b { Pow2Monotone(a, b - 1); }
  }

  lemma {:induction false} Pow2StrictlyMonotone(a: nat, b: nat)
    requires a < b
    ensures Pow2(a) < Pow2(b)
  {
    Pow2Monotone(a, b - 1);
  }

  lemma {:induction false} ShrIsDivision(v: nat, n: nat)
    ensures Shr(v, n) == v / Pow2(n)
  {
    if n > 0 {
      ShrIsDivision(v / 2, n - 1);
      DivDiv(v, Pow2(n - 1));
    }
  }

  lemma DivDiv(v: nat, m: nat)
    requires m > 0
    ensures v / 2 / m == v / (2 * m)
  {
    var q, r := v / 2 / m, v / 2 % m;
    assert v / 2 == m * q + r;
    var s := 2 * r + v % 2;
    assert v == (2 * m) * q + s && 0 <= s < 2 * m by {
      assert (2 * m) * q == 2 * (m * q);
    }
    QuotientUnique(v, 2 * m, q, s);
  }

  lemma QuotientUnique(v: int, m: int, q: int, s: int)
    requires m > 0 && 0 <= s < m && v == m * q + s
    ensures v / m == q && v % m == s
  {
    var d := v / m - q;
    assert v == m * (v / m) + v % m;
    assert m * d == s - v % m by { assert m * d == m * (v / m) - m * q; }
    MulAtLeast(m, d);
  }

  lemma MulAtLeast(m: int, d: int)
    requires m > 0
    ensures d >= 1 ==> m * d >= m
    ensures d <= -1 ==> m * d <= -m
  {
  }

  lemma {:induction false} AlignedIsMod(v: nat, n: nat)
    ensures Aligned(v, n) <==> v % Pow2(n) == 0
    ensures AlignDown(v, n) == v - v % Pow2(n)
  {
    if n > 0 {
      AlignedIsMod(v / 2, n - 1);
      HalfMod(v, Pow2(n - 1));
    }
  }

  lemma HalfMod(v: nat, m: nat)
    requires m > 0
    ensures v % (2 * m) == 2 * (v / 2 % m) + v % 2
  {
    var q, s := v / 2 / m, 2 * (v / 2 % m) + v % 2;
    assert v / 2 == m * q + v / 2 % m;
    assert (2 * m) * q == 2 * (m * q);
    QuotientUnique(v, 2 * m, q, s);
  }

  // ---------------------------------------------------------------- alignment

  lemma {:induction false} AlignDownBounds(v: nat, n: nat)
    ensures Aligned(AlignDown(v, n), n)
    ensures AlignDown(v, n) <= v < AlignDown(v, n) + Pow2(n)
  {
    if n > 0 { AlignDownBounds(v / 2, n - 1); }
  }

  lemma {:induction false} AlignedWeaken(v: nat, n: nat, m: nat)
    requires m <= n && Aligned(v, n)
    ensures Aligned(v, m)
  {
    if m > 0 { AlignedWeaken(v / 2, n - 1, m - 1); }
  }

  lemma {:induction false} AlignedPow2(n: nat, m: nat)
    requires m <= n
    ensures Aligned(Pow2(n), m)
  {
    if m > 0 {
      assert Pow2(n) == 2 * Pow2(n - 1);
      AlignedPow2(n - 1, m - 1);
    }
  }

  lemma {:induction false} AlignedSum(v: nat, w: nat, n: nat)
    requires Aligned(v, n) && Aligned(w, n)
    ensures Aligned(v + w, n)
  {
    if n > 0 {
      AlignedSum(v / 2, w / 2, n - 1);
      assert (v + w) / 2 == v / 2 + w / 2;
    }
  }

  /** Two naturally aligned blocks are nested or disjoint. */
  lemma {:induction false} Nested(p: nat, c: nat, q: nat, d: nat)
    requires c <= d && Aligned(p, c) && Aligned(q, d)
    ensures q <= p < q + Pow2(d) ==> p + Pow2(c) <= q + Pow2(d)
    ensures !(p < q < p + Pow2(c))
  {
    if c > 0 { Nested(p / 2, c - 1, q / 2, d - 1); }
  }

  lemma AlignDownUnique(v: nat, n: nat, q: nat)
    requires Aligned(q, n) && q <= v < q + Pow2(n)
    ensures AlignDown(v, n) == q
  {
    AlignDownBounds(v, n);
    Nested(q, n, AlignDown(v, n), n);
    Nested(AlignDown(v, n), n, q, n);
  }

  /** A block of class n + 1 is a pair of blocks of class n. */
  lemma {:induction false} AlignedHalves(p: nat, n: nat)
    requires Aligned(p, n + 1)
    ensures Aligned(p, n) && Aligned(p + Pow2(n), n) && !Aligned(p + Pow2(n), n + 1)
  {
    if n > 0 {
      AlignedHalves(p / 2, n - 1);
      assert (p + Pow2(n)) / 2 == p / 2 + Pow2(n - 1);
    }
  }

  /** A block of class n is the left or the right half of its parent. */
  lemma {:induction false} AlignedParent(p: nat, n: nat)
    requires Aligned(p, n)
    ensures Aligned(p, n + 1) ==> AlignDown(p, n + 1) == p
    ensures !Aligned(p, n + 1) ==> p >= Pow2(n) && AlignDown(p, n + 1) == p - Pow2(n)
  {
    if n == 0 {
      assert Aligned(p / 2, 0) && AlignDown(p / 2, 0) == p / 2;
    } else {
      AlignedParent(p / 2, n - 1);
    }
  }

  /** The parent of the block of class n around v is the block of class n + 1 around v. */
  lemma ParentOfAlignDown(v: nat, n: nat)
    ensures AlignDown(AlignDown(v, n), n + 1) == AlignDown(v, n + 1)
  {
    var p, q := AlignDown(v, n), AlignDown(v, n + 1);
    AlignDownBounds(v, n);
    AlignDownBounds(v, n + 1);
    Nested(p, n, q, n + 1);
    AlignDownUnique(p, n + 1, q);
  }

  // ---------------------------------------------------------------- shifts and xor

  lemma {:induction false} ShrAlignDown(v: nat, n: nat)
    ensures Shr(AlignDown(v, n), n) == Shr(v, n)
  {
    if n > 0 { ShrAlignDown(v / 2, n - 1); }
  }

  lemma {:induction false} ShrStrictlyMonotone(p: nat, q: nat, n: nat)
    requires Aligned(q, n) && p < q
    ensures Shr(p, n) < Shr(q, n)
  {
    if n > 0 { ShrStrictlyMonotone(p / 2, q / 2, n - 1); }
  }

  lemma {:induction false} ShrMonotone(p: nat, q: nat, n: nat)
    requires p <= q
    ensures Shr(p, n) <= Shr(q, n)
  {
    if n > 0 { ShrMonotone(p / 2, q / 2, n - 1); }
  }

  lemma {:induction false} ShrOnto(i: nat, n: nat) returns (p: nat)
    ensures Aligned(p, n) && Shr(p, n) == i
  {
    if n == 0 {
      p := i;
    } else {
      var h := ShrOnto(i, n - 1);
      p := 2 * h;
    }
  }

  lemma {:induction false} XorZero(p: nat)
    ensures Xor(p, 0) == p
  {
    if p > 0 { XorZero(p / 2); }
  }

  /** On a block start, flipping the bit of the block's class moves to the other half. */
  lemma {:induction false} XorIsOtherHalf(p: nat, n: nat)
    requires Aligned(p, n)
    ensures Aligned(p, n + 1) ==> Xor(p, Pow2(n)) == p + Pow2(n)
    ensures !Aligned(p, n + 1) ==> p >= Pow2(n) && Xor(p, Pow2(n)) == p - Pow2(n)
  {
    if n == 0 {
      XorZero(p / 2);
      assert Aligned(p / 2, 0);
    } else {
      XorIsOtherHalf(p / 2, n - 1);
      assert Pow2(n) / 2 == Pow2(n - 1);
    }
  }

  // ---------------------------------------------------------------- size classes

  /** `__builtin_clzl` restricted to the low `width` bits */
  function LeadingZeros(v: nat, width: nat): (r: nat)
    requires v < Pow2(width)
    ensures r <= width
  {
    if width == 0 || v >= Pow2(width - 1) then 0 else 1 + LeadingZeros(v, width - 1)
  }

  /** The width of the words in which smallest_greater_power2 counts leading zeros. */
  const WORD: nat := 64

  function SmallestGreaterPower2(value: nat): nat
    requires value <= Pow2(WORD)
  {
    if value <= 1 then 0 else WORD - LeadingZeros(value - 1, WORD)
  }

  lemma {:induction false} LeadingZerosBound(v: nat, width: nat)
    requires 0 < v < Pow2(width)
    ensures LeadingZeros(v, width) < width
    ensures Pow2(width - LeadingZeros(v, width) - 1) <= v < Pow2(width - LeadingZeros(v, width))
  {
    if width > 0 && v < Pow2(width - 1) {
      LeadingZerosBound(v, width - 1);
    }
  }

  /** The result is the least k with value <= 2^k. */
  lemma SmallestGreaterPower2Least(value: nat)
    requires value <= Pow2(WORD)
    ensures var k := SmallestGreaterPower2(value);
            k <= WORD && value <= Pow2(k) && (forall j: nat | j < k :: Pow2(j) < value)
  {
    if value > 1 { BitLengthLeast(value - 1, WORD); }
  }

  lemma BitLengthLeast(v: nat, width: nat)
    requires 0 < v < Pow2(width)
    ensures var k := width - LeadingZeros(v, width);
            0 < k <= width && v + 1 <= Pow2(k) && (forall j: nat | j < k :: Pow2(j) <= v)
  {
    LeadingZerosBound(v, width);
    var k := width - LeadingZeros(v, width);
    forall j: nat | j < k ensures Pow2(j) <= v {
      Pow2Monotone(j, k - 1);
    }
  }

  // ---------------------------------------------------------------- bitwise operators

  lemma Pow2Byte(n: nat)
    ensures Pow2(n + 8) == 256 * Pow2(n)
  {
    assert Pow2(n + 8) == 2 * Pow2(n + 7) == 4 * Pow2(n + 6) == 8 * Pow2(n + 5) == 16 * Pow2(n + 4);
    assert Pow2(n + 4) == 2 * Pow2(n + 3) == 4 * Pow2(n + 2) == 8 * Pow2(n + 1) == 16 * Pow2(n);
  }

  lemma Pow2Of64()
    ensures Pow2(64) == TWO64
  {
    Pow2Byte(0); Pow2Byte(8); Pow2Byte(16); Pow2Byte(24);
    Pow2Byte(32); Pow2Byte(40); Pow2Byte(48); Pow2Byte(56);
  }

  lemma {:induction false} BitOfOr(a: nat, b: nat, k: nat)
    ensures Bit(Or(a, b), k) == (Bit(a, k) || Bit(b, k))
  {
    if a == 0 && b == 0 {
      BitOfZero(k);
    } else if k > 0 {
      BitOfOr(a / 2, b / 2, k - 1);
    }
  }

  lemma {:induction false} BitOfAnd(a: nat, b: nat, k: nat)
    ensures Bit(And(a, b), k) == (Bit(a, k) && Bit(b, k))
  {
    if a == 0 || b == 0 {
      BitOfZero(k);
    } else if k > 0 {
      BitOfAnd(a / 2, b / 2, k - 1);
    }
  }

  lemma {:induction false} BitOfZero(k: nat)
    ensures !Bit(0, k)
  {
    if k > 0 { BitOfZero(k - 1); }
  }

  lemma {:induction false} BitOfPow2(n: nat, k: nat)
    ensures Bit(Pow2(n), k) == (k == n)
  {
    if n > 0 && k > 0 {
      BitOfPow2(n - 1, k - 1);
    } else if k > 0 {
      BitOfZero(k - 1);
    }
  }

  lemma {:induction false} BitOfComplement(w: nat, n: nat, k: nat)
    requires w < Pow2(n) && k < n
    ensures Bit(Pow2(n) - 1 - w, k) == !Bit(w, k)
  {
    var m := Pow2(n - 1);
    HalfComplement(w, m);
    if k > 0 { BitOfComplement(w / 2, n - 1, k - 1); }
  }

  lemma HalfComplement(w: nat, m: nat)
    requires w < 2 * m
    ensures (2 * m - 1 - w) / 2 == m - 1 - w / 2 && (2 * m - 1 - w) % 2 == 1 - w % 2
  {
  }

  lemma BitOfNot(w: u64, k: nat)
    requires k < 64
    ensures Bit(Not(w), k) == !Bit(w, k)
  {
    Pow2Of64();
    BitOfComplement(w, 64, k);
  }

  /** Bits determine a word. */
  lemma {:induction false} BitExtensionality(a: nat, b: nat, n: nat)
    requires a < Pow2(n) && b < Pow2(n) && forall k: nat | k < n :: Bit(a, k) == Bit(b, k)
    ensures a == b
  {
    if n > 0 {
      assert Bit(a, 0) == Bit(b, 0);
      forall k: nat | k < n - 1 ensures Bit(a / 2, k) == Bit(b / 2, k) {
        assert Bit(a, k + 1) == Bit(b, k + 1);
      }
      BitExtensionality(a / 2, b / 2, n - 1);
    }
  }

  lemma {:induction false} OrBounded(a: nat, b: nat, n: nat)
    requires a < Pow2(n) && b < Pow2(n)
    ensures Or(a, b) < Pow2(n)
  {
    if n > 0 { OrBounded(a / 2, b / 2, n - 1); }
  }

  lemma {:induction false} AndBounded(a: nat, b: nat)
    ensures And(a, b) <= a
  {
    if a > 0 && b > 0 { AndBounded(a / 2, b / 2); }
  }

  /** Testing a bit with a one-bit mask. */
  lemma {:induction false} MaskTestsBit(k: nat, v: nat)
    ensures And(Pow2(k), v) != 0 <==> Bit(v, k)
  {
    if v == 0 {
      BitOfZero(k);
    } else if k > 0 {
      MaskTestsBit(k - 1, v / 2);
    } else {
      assert And(Pow2(0) / 2, v / 2) == 0;
    }
  }

  /** The least multiple of m that is at least v: align_up */
  function RoundUp(v: nat, m: nat): nat
    requires m > 0
  {
    (v + m - 1) / m * m
  }

  lemma RoundUpLeast(v: nat, m: nat)
    requires m > 0
    ensures v <= RoundUp(v, m) < v + m && RoundUp(v, m) % m == 0
    ensures v % m == 0 ==> RoundUp(v, m) == v
  {
    var q, r := (v + m - 1) / m, (v + m - 1) % m;
    assert v + m - 1 == m * q + r;
    assert RoundUp(v, m) == m * q by { assert q * m == m * q; }
    QuotientUnique(m * q, m, q, 0);
    if v % m == 0 {
      assert v == m * (v / m);
      QuotientUnique(v + m - 1, m, v / m, m - 1);
    }
  }

  lemma RoundUpMonotone(v: nat, w: nat, m: nat)
    requires m > 0 && v <= w
    ensures RoundUp(v, m) <= RoundUp(w, m)
  {
    RoundUpLeast(v, m);
    RoundUpLeast(w, m);
    var d := (w + m - 1) / m - (v + m - 1) / m;
    assert RoundUp(w, m) - RoundUp(v, m) == m * d;
    MulAtLeast(m, d);
  }
}
