/** kern/page_tables.c: page table entries and the split of a virtual address, on u64 words. */
module PageEncoding {
  import opened Bits

  const KERNEL_SPACE_BEGIN: u64 := 0xffff_8000_0000_0000
  const PTE_HUGE_PAGE: u64 := 0x80
  const PTE_ADDRESS: u64 := 0x000f_ffff_ffff_f000
  const ENTRY_COUNT: nat := 512

  /** Physical addresses below the kernel window have 47 bits: this many pages. */
  const FRAMES: nat := 0x8_0000_0000
  /** The virtual pages that four indices distinguish. */
  const VIRTUAL_PAGES: nat := 0x10_0000_0000

  /** `v << n` before truncation */
  function Shl(v: nat, n: nat): nat {
    if n == 0 then v else 2 * Shl(v, n - 1)
  }

  // ---------------------------------------------------------------- pointers and entries

  /** make_pte; the null pointer is 0. */
  function MakePte(ptr: u64, flags: u64): nat
    requires ptr == 0 || ptr >= KERNEL_SPACE_BEGIN
  {
    if ptr == 0 then 0 else Or(And(ptr - KERNEL_SPACE_BEGIN, PTE_ADDRESS), flags)
  }

  /** `(s64)(bits << 16) >> 16`: bit 47 is copied into the upper bits. */
  function SignExtend48(bits: u64): u64 {
    var shifted := bits * 0x1_0000 % TWO64;
    shifted / 0x1_0000 + if shifted >= TWO64 / 2 then TWO64 - 0x1_0000_0000_0000 else 0
  }

  /** The address bits of an entry. */
  function AddressBits(entry: u64): u64 {
    AndBounded(entry, PTE_ADDRESS);
    And(entry, PTE_ADDRESS)
  }

  /** pte_address, whose kernel_ptr asserts that the address lies below the kernel window. */
  function PteAddress(entry: u64): nat
    requires entry != 0 ==> SignExtend48(AddressBits(entry)) < KERNEL_SPACE_BEGIN
  {
    if entry == 0 then 0 else SignExtend48(AddressBits(entry)) + KERNEL_SPACE_BEGIN
  }

  predicate IsHuge(entry: u64) {
    And(entry, PTE_HUGE_PAGE) != 0
  }

  /** The page number in an entry. */
  function Frame(entry: u64): nat {
    entry / 4096 % 0x100_0000_0000
  }

  /** kernel_ptr of a page number, and back. */
  function PtrOf(page: nat): u64
    requires page < FRAMES
  {
    KERNEL_SPACE_BEGIN + 4096 * page
  }

  /** The bits of an entry that do not belong to the address. */
  function FlagBits(entry: u64): nat {
    And(entry, Not(PTE_ADDRESS))
  }

  predicate FlagsOk(flags: u64) {
    And(flags, PTE_ADDRESS) == 0
  }

  // ---------------------------------------------------------------- masks

  lemma {:induction false} AndLow(x: nat, n: nat)
    ensures And(x, Pow2(n) - 1) == x % Pow2(n)
  {
    if n > 0 {
      AndLow(x / 2, n - 1);
      HalfMod(x, Pow2(n - 1));
      assert (Pow2(n) - 1) / 2 == Pow2(n - 1) - 1;
    }
  }

  lemma {:induction false} AndShl(x: nat, m: nat, n: nat)
    ensures And(x, Shl(m, n)) == Shl(And(Shr(x, n), m), n)
  {
    if n > 0 { AndShl(x / 2, m, n - 1); }
    if x == 0 { ShrZero(n); ShlZero(n); }
    if m == 0 { ShlZero(n); }
  }

  lemma {:induction false} ShrZero(n: nat)
    ensures Shr(0, n) == 0
  {
    if n > 0 { ShrZero(n - 1); }
  }

  lemma {:induction false} ShlZero(n: nat)
    ensures Shl(0, n) == 0
  {
    if n > 0 { ShlZero(n - 1); }
  }

  lemma Constants()
    ensures Pow2(7) == 128 && Pow2(12) == 4096 && Pow2(40) == 0x100_0000_0000 && Pow2(52) == 0x10_0000_0000_0000
  {
    assert Pow2(7) == 128 && Pow2(8) == 256 && Pow2(12) == 4096;
    Pow2Byte(8); Pow2Byte(16); Pow2Byte(24); Pow2Byte(32);
    Pow2Byte(12); Pow2Byte(20); Pow2Byte(28); Pow2Byte(36); Pow2Byte(44);
  }

  lemma {:induction false} ShlIsTimes(v: nat, n: nat)
    ensures Shl(v, n) == v * Pow2(n)
  {
    if n > 0 { ShlIsTimes(v, n - 1); }
  }

  /** The address mask selects the page number. */
  lemma MaskIsFrame(entry: u64)
    ensures And(entry, PTE_ADDRESS) == 4096 * Frame(entry)
  {
    Constants();
    ShlIsTimes(Pow2(40) - 1, 12);
    AndShl(entry, Pow2(40) - 1, 12);
    AndLow(Shr(entry, 12), 40);
    ShrIsDivision(entry, 12);
    ShlIsTimes(Frame(entry), 12);
  }

  lemma {:induction false} OrOfDisjoint(a: nat, b: nat)
    requires And(a, b) == 0
    ensures Or(a, b) == a + b
  {
    if a == 0 || b == 0 {
      OrZero(a);
      OrZero(b);
    } else {
      OrOfDisjoint(a / 2, b / 2);
    }
  }

  lemma {:induction false} OrZero(a: nat)
    ensures Or(a, 0) == a && Or(0, a) == a
  {
    if a > 0 { OrZero(a / 2); }
  }

  lemma {:induction false} BitOfShl(v: nat, n: nat, k: nat)
    ensures Bit(Shl(v, n), k) == (k >= n && Bit(v, k - n))
  {
    if n > 0 && k > 0 { BitOfShl(v, n - 1, k - 1); }
  }

  lemma {:induction false} AndCommutes(a: nat, b: nat)
    ensures And(a, b) == And(b, a)
  {
    if a > 0 && b > 0 { AndCommutes(a / 2, b / 2); }
  }

  /** Addresses of pages have no bit in common with flags outside the address mask. */
  lemma PageDisjointFromFlags(page: nat, flags: u64)
    requires page < FRAMES && FlagsOk(flags)
    ensures And(4096 * page, flags) == 0
  {
    var a := 4096 * page;
    MaskIsFrame(a);
    FrameOfPage(page);
    MaskSeparates(a, flags, PTE_ADDRESS);
  }

  lemma FrameOfPage(page: nat)
    requires page < FRAMES
    ensures Frame(4096 * page) == page
  {
  }

  /** A value inside a mask and one outside it have no bit in common. */
  lemma MaskSeparates(a: u64, flags: u64, mask: u64)
    requires And(a, mask) == a && And(flags, mask) == 0
    ensures And(a, flags) == 0
  {
    forall k: nat | k < 64 ensures Bit(And(a, flags), k) == Bit(0, k) {
      BitOfAnd(a, flags, k);
      BitOfAnd(a, mask, k);
      BitOfAnd(flags, mask, k);
      BitOfZero(k);
    }
    AndBounded(a, flags);
    Pow2Of64();
    BitExtensionality(And(a, flags), 0, 64);
  }

  /** The bits outside a mask are the flags or-ed to a value inside it. */
  lemma FlagsRecovered(a: u64, flags: u64, mask: u64)
    requires And(a, mask) == a && And(flags, mask) == 0 && Or(a, flags) < TWO64
    ensures And(Or(a, flags), Not(mask)) == flags
  {
    var e := Or(a, flags);
    forall k: nat | k < 64 ensures Bit(And(e, Not(mask)), k) == Bit(flags, k) {
      BitOfAnd(e, Not(mask), k);
      BitOfNot(mask, k);
      BitOfOr(a, flags, k);
      BitOfAnd(a, mask, k);
      BitOfAnd(flags, mask, k);
      BitOfZero(k);
    }
    AndBounded(e, Not(mask));
    Pow2Of64();
    BitExtensionality(And(e, Not(mask)), flags, 64);
  }

  lemma MakePteValue(page: nat, flags: u64)
    requires page < FRAMES && FlagsOk(flags)
    ensures And(4096 * page, PTE_ADDRESS) == 4096 * page
    ensures MakePte(PtrOf(page), flags) == Or(4096 * page, flags) == 4096 * page + flags < TWO64
  {
    var a := 4096 * page;
    MaskIsFrame(a);
    FrameOfPage(page);
    PageDisjointFromFlags(page, flags);
    OrOfDisjoint(a, flags);
    Pow2Of64();
    OrBounded(a, flags, 64);
  }

  lemma HugeOfPage(page: nat, flags: u64)
    requires page < FRAMES && Or(4096 * page, flags) < TWO64
    ensures IsHuge(Or(4096 * page, flags)) == IsHuge(flags)
  {
    Constants();
    ShlIsTimes(page, 12);
    HugeIsBit7(Or(4096 * page, flags));
    HugeIsBit7(flags);
    BitOfOr(4096 * page, flags, 7);
    BitOfShl(page, 12, 7);
  }

  /** The entry for a page of physical memory: its page number, its flags and its emptiness. */
  lemma MakePteFields(page: nat, flags: u64)
    requires page < FRAMES && FlagsOk(flags)
    ensures var e := MakePte(PtrOf(page), flags);
            e < TWO64 && Frame(e) == page && FlagBits(e) == flags &&
            (e == 0 <==> page == 0 && flags == 0) && IsHuge(e) == IsHuge(flags)
  {
    MakePteValue(page, flags);
    FieldsOf(page, flags, MakePte(PtrOf(page), flags), 4096 * page, PTE_ADDRESS);
  }

  lemma FieldsOf(page: nat, flags: u64, e: u64, a: u64, mask: u64)
    requires page < FRAMES && a == 4096 * page && mask == PTE_ADDRESS && And(flags, mask) == 0 && And(a, mask) == a
    requires e == Or(a, flags) == a + flags
    ensures Frame(e) == page && And(e, Not(mask)) == flags && IsHuge(e) == IsHuge(flags)
  {
    HugeOfPage(page, flags);
    FlagsRecovered(a, flags, mask);
    MaskIsFrame(flags);
    FrameOfSum(page, flags);
  }

  lemma FrameOfSum(page: nat, flags: u64)
    requires page < FRAMES && Frame(flags) == 0 && 4096 * page + flags < TWO64
    ensures Frame(4096 * page + flags) == page
  {
  }

  lemma HugeIsBit7(entry: u64)
    ensures IsHuge(entry) <==> Bit(entry, 7)
  {
    Constants();
    MaskTestsBit(7, entry);
    AndCommutes(entry, PTE_HUGE_PAGE);
  }

  lemma HugeFlag(flags: u64)
    requires FlagsOk(flags)
    ensures Or(flags, PTE_HUGE_PAGE) < TWO64 && FlagsOk(Or(flags, PTE_HUGE_PAGE)) && IsHuge(Or(flags, PTE_HUGE_PAGE))
    ensures Or(flags, PTE_HUGE_PAGE) != 0
  {
    Pow2Of64();
    Constants();
    OrBounded(flags, PTE_HUGE_PAGE, 64);
    var h := Or(flags, PTE_HUGE_PAGE);
    HugeIsBit7(h);
    BitOfOr(flags, PTE_HUGE_PAGE, 7);
    BitOfPow2(7, 7);
    forall k: nat | k < 64 ensures Bit(And(h, PTE_ADDRESS), k) == Bit(0, k) {
      BitOfAnd(h, PTE_ADDRESS, k);
      BitOfOr(flags, PTE_HUGE_PAGE, k);
      BitOfAnd(flags, PTE_ADDRESS, k);
      BitOfZero(k);
      BitOfPow2(7, k);
      MaskIsFrame(PTE_HUGE_PAGE);
      BitOfAnd(PTE_HUGE_PAGE, PTE_ADDRESS, k);
    }
    AndBounded(h, PTE_ADDRESS);
    BitExtensionality(And(h, PTE_ADDRESS), 0, 64);
    BitOfZero(7);
  }

  /** Below the sign bit, sign extension changes nothing. */
  lemma SignExtendSmall(bits: u64)
    requires bits < 0x8000_0000_0000
    ensures SignExtend48(bits) == bits
  {
    assert bits * 0x1_0000 < TWO64 / 2;
    QuotientUnique(bits * 0x1_0000, 0x1_0000, bits, 0);
  }

  /** Decoding an entry whose page lies in the kernel window. */
  lemma PteAddressIsPtr(entry: u64)
    requires entry != 0 && Frame(entry) < FRAMES
    ensures SignExtend48(AddressBits(entry)) < KERNEL_SPACE_BEGIN && PteAddress(entry) == PtrOf(Frame(entry))
  {
    AddressBitsOf(entry);
    SignExtendSmall(AddressBits(entry));
  }

  lemma AddressBitsOf(entry: u64)
    ensures AddressBits(entry) == 4096 * Frame(entry)
  {
    MaskIsFrame(entry);
  }

  /** The flags of an entry are always recoverable, and pte_address(make_pte(p, flags)) = p for all
      pages but one: without flags the first page of memory encodes as the empty entry. */
  lemma PteRoundTrip(ptr: u64, flags: u64)
    requires ptr >= KERNEL_SPACE_BEGIN && ptr % 4096 == 0 && FlagsOk(flags)
    ensures var e := MakePte(ptr, flags);
            e < TWO64 && FlagBits(e) == flags &&
            (e != 0 ==> SignExtend48(AddressBits(e)) < KERNEL_SPACE_BEGIN) &&
            (PteAddress(e) == ptr <==> flags != 0 || ptr != KERNEL_SPACE_BEGIN)
  {
    var page := (ptr - KERNEL_SPACE_BEGIN) / 4096;
    assert PtrOf(page) == ptr;
    MakePteFields(page, flags);
    var e := MakePte(ptr, flags);
    if e != 0 { PteAddressIsPtr(e); }
  }

  // ---------------------------------------------------------------- virtual addresses

  /** PageTableIndices: the byte offset and the four indices. */
  datatype Indices = Indices(p0: nat, p1: nat, p2: nat, p3: nat, p4: nat)

  function PageTableIndices(address: u64): Indices {
    var p1 := address / 4096;
    var p2 := p1 / 512;
    var p3 := p2 / 512;
    var p4 := p3 / 512;
    Indices(address % 4096, p1 % ENTRY_COUNT, p2 % ENTRY_COUNT, p3 % ENTRY_COUNT, p4 % ENTRY_COUNT)
  }

  predicate InBounds(ix: Indices) {
    ix.p1 < ENTRY_COUNT && ix.p2 < ENTRY_COUNT && ix.p3 < ENTRY_COUNT && ix.p4 < ENTRY_COUNT
  }

  /** indices_to_address: the four indices are shifted into place and or-ed together. */
  function JoinedBits(ix: Indices): nat {
    Or(Or(Or(Shl(ix.p4, 39), Shl(ix.p3, 30)), Shl(ix.p2, 21)), Shl(ix.p1, 12))
  }

  function IndicesToAddress(ix: Indices): u64
    requires JoinedBits(ix) < TWO64
  {
    SignExtend48(JoinedBits(ix))
  }

  /** A number with n clear low bits, or-ed with one below 2^n. */
  lemma {:induction false} OrConcatenates(a: nat, n: nat, b: nat)
    requires b < Pow2(n)
    ensures Or(Shl(a, n), b) == Shl(a, n) + b
  {
    if n == 0 {
      OrZero(a);
    } else {
      OrConcatenates(a, n - 1, b / 2);
      if a == 0 { ShlZero(n); OrZero(b); }
    }
  }

  lemma {:induction false} ShlSum(a: nat, m: nat, n: nat)
    ensures Shl(Shl(a, m), n) == Shl(a, m + n)
  {
    if n > 0 { ShlSum(a, m, n - 1); }
  }

  lemma {:induction false} ShlBounded(a: nat, m: nat, n: nat)
    requires a < Pow2(m)
    ensures Shl(a, n) < Pow2(m + n)
  {
    if n > 0 { ShlBounded(a, m, n - 1); }
  }

  lemma {:induction false} ShlAdds(a: nat, b: nat, n: nat)
    ensures Shl(a + b, n) == Shl(a, n) + Shl(b, n)
  {
    if n > 0 { ShlAdds(a, b, n - 1); }
  }

  /** One more 9-bit field below those already joined. */
  lemma JoinField(high: nat, low: nat, n: nat)
    requires low < 512
    ensures Or(Shl(high, n + 9), Shl(low, n)) == Shl(512 * high + low, n)
  {
    assert Pow2(9) == 512;
    ShlSum(high, 9, n);
    ShlIsTimes(high, 9);
    ShlAdds(512 * high, low, n);
    ShlBounded(low, 9, n);
    assert Pow2(9 + n) == Pow2(n + 9);
    OrConcatenates(high, n + 9, Shl(low, n));
  }

  /** The virtual page that four indices stand for. */
  function VirtualPage(ix: Indices): nat {
    ((ix.p4 * 512 + ix.p3) * 512 + ix.p2) * 512 + ix.p1
  }

  lemma JoinedBitsIsPage(ix: Indices)
    requires InBounds(ix)
    ensures JoinedBits(ix) == 4096 * VirtualPage(ix) < 0x1_0000_0000_0000
  {
    JoinField(ix.p4, ix.p3, 30);
    JoinField(512 * ix.p4 + ix.p3, ix.p2, 21);
    JoinField(512 * (512 * ix.p4 + ix.p3) + ix.p2, ix.p1, 12);
    Constants();
    ShlIsTimes(VirtualPage(ix), 12);
  }

  predicate Canonical(address: u64) {
    address < 0x8000_0000_0000 || address >= KERNEL_SPACE_BEGIN
  }

  /** The four indices are the base-512 digits of the page number. */
  lemma IndexDigits(address: u64)
    ensures var ix := PageTableIndices(address);
            InBounds(ix) && ix.p0 == address % 4096 &&
            VirtualPage(ix) == address / 4096 % VIRTUAL_PAGES && VirtualPage(ix) < VIRTUAL_PAGES
  {
    var ix := PageTableIndices(address);
    var q := address / 4096;
    var q1 := q / 512;
    var q2 := q1 / 512;
    var q3 := q2 / 512;
    var q4 := q3 / 512;
    assert q == 512 * q1 + ix.p1 && q1 == 512 * q2 + ix.p2 && q2 == 512 * q3 + ix.p3 && q3 == 512 * q4 + ix.p4;
    assert q == VIRTUAL_PAGES * q4 + VirtualPage(ix);
    QuotientUnique(q, VIRTUAL_PAGES, q4, VirtualPage(ix));
  }

  /** Bit 47 of a page's address is copied upwards. */
  lemma SignExtendPage(v: nat)
    requires v < VIRTUAL_PAGES
    ensures 4096 * v < TWO64
    ensures SignExtend48(4096 * v) == 4096 * v + if v >= FRAMES then TWO64 - 0x1_0000_0000_0000 else 0
  {
  }

  /** Joining the indices of a page-aligned address gives the address back exactly when it is
      canonical. */
  lemma SplitThenJoin(address: u64)
    requires address % 4096 == 0
    ensures JoinedBits(PageTableIndices(address)) < TWO64
    ensures IndicesToAddress(PageTableIndices(address)) == address <==> Canonical(address)
  {
    var ix := PageTableIndices(address);
    IndexDigits(address);
    JoinedBitsIsPage(ix);
    SignExtendPage(VirtualPage(ix));
    CanonicalPage(address, VirtualPage(ix), address / 4096 / VIRTUAL_PAGES);
  }

  lemma CanonicalPage(address: u64, v: nat, h: nat)
    requires v < VIRTUAL_PAGES && address == 4096 * (VIRTUAL_PAGES * h + v)
    ensures Canonical(address) <==> address == 4096 * v + if v >= FRAMES then TWO64 - 0x1_0000_0000_0000 else 0
  {
  }

  /** Splitting the address joined from four indices gives the indices back. */
  lemma JoinThenSplit(ix: Indices)
    requires InBounds(ix) && ix.p0 == 0
    ensures JoinedBits(ix) < TWO64
    ensures Canonical(IndicesToAddress(ix)) && PageTableIndices(IndicesToAddress(ix)) == ix
  {
    JoinedBitsIsPage(ix);
    var v := VirtualPage(ix);
    SignExtendPage(v);
    var address := IndicesToAddress(ix);
    IndexDigits(address);
    ExtendedPage(address, v);
    DigitsUnique(ix, PageTableIndices(address));
  }

  lemma ExtendedPage(address: u64, v: nat)
    requires v < VIRTUAL_PAGES
    requires address == 4096 * v + if v >= FRAMES then TWO64 - 0x1_0000_0000_0000 else 0
    ensures address % 4096 == 0 && address / 4096 % VIRTUAL_PAGES == v && Canonical(address)
  {
    var h := if v >= FRAMES then 0xffff else 0;
    var q := VIRTUAL_PAGES * h + v;
    assert address == 4096 * q;
    QuotientUnique(address, 4096, q, 0);
    QuotientUnique(q, VIRTUAL_PAGES, h, v);
    CanonicalPage(address, v, h);
  }

  lemma DigitsUnique(a: Indices, b: Indices)
    requires InBounds(a) && InBounds(b) && VirtualPage(a) == VirtualPage(b)
    ensures a.p1 == b.p1 && a.p2 == b.p2 && a.p3 == b.p3 && a.p4 == b.p4
  {
    var a3, b3 := a.p4 * 512 + a.p3, b.p4 * 512 + b.p3;
    var a2, b2 := a3 * 512 + a.p2, b3 * 512 + b.p2;
    DigitUnique(a2, a.p1, b2, b.p1);
    DigitUnique(a3, a.p2, b3, b.p2);
    DigitUnique(a.p4, a.p3, b.p4, b.p3);
  }

  lemma DigitUnique(x: nat, p: nat, y: nat, q: nat)
    requires p < 512 && q < 512 && x * 512 + p == y * 512 + q
    ensures x == y && p == q
  {
  }
}
