/** The allocator-building part of memory__init: sorting the boot memory map, taking the allocator's
    own storage out of it, and releasing every whole page that is left. */
module BootMemory {
  import opened Bits
  import opened BitSets
  import opened Blocks
  import FreeBlocks
  import opened Heaps
  import opened Options

  /** An entry of the boot memory map; the low four bits of the size hold the type. */
  datatype MMapEnt = MMapEnt(ptr: u64, size: u64)

  predicate IsFree(e: MMapEnt) {
    e.size % 16 == 1
  }

  /** MMapEnt_Size */
  function EntSize(e: MMapEnt): u64 {
    e.size - e.size % 16
  }

  // ---------------------------------------------------------------- SLOW_SORT

  /** The entries that are free, or those that are not, in their order. */
  function Keep(s: seq<MMapEnt>, free: bool): seq<MMapEnt> {
    if s == [] then [] else (if IsFree(s[0]) == free then [s[0]] else []) + Keep(s[1..], free)
  }

  /** The stable partition that puts free entries first. */
  function FreeFirst(s: seq<MMapEnt>): seq<MMapEnt> {
    Keep(s, true) + Keep(s, false)
  }

  lemma {:induction false} KeepConcat(x: seq<MMapEnt>, y: seq<MMapEnt>, free: bool)
    ensures Keep(x + y, free) == Keep(x, free) + Keep(y, free)
  {
    if x == [] {
      assert x + y == y;
    } else {
      assert (x + y)[0] == x[0] && (x + y)[1..] == x[1..] + y;
      KeepConcat(x[1..], y, free);
      var head := if IsFree(x[0]) == free then [x[0]] else [];
      assert Keep(x + y, free) == head + (Keep(x[1..], free) + Keep(y, free));
    }
  }

  lemma KeepParts(x: seq<MMapEnt>, y: seq<MMapEnt>, z: seq<MMapEnt>, free: bool)
    ensures Keep(x + y + z, free) == Keep(x, free) + Keep(y, free) + Keep(z, free)
  {
    KeepConcat(x, y, free);
    KeepConcat(x + y, z, free);
  }

  /** Swapping a used entry with a free one right after it moves no entry past one of its kind. */
  lemma SwapKeeps(s: seq<MMapEnt>, k: nat)
    requires k + 1 < |s| && !IsFree(s[k]) && IsFree(s[k + 1])
    ensures FreeFirst(s[k := s[k + 1]][k + 1 := s[k]]) == FreeFirst(s)
  {
    var pair, swapped := [s[k], s[k + 1]], [s[k + 1], s[k]];
    assert s == s[..k] + pair + s[k + 2..];
    assert s[k := s[k + 1]][k + 1 := s[k]] == s[..k] + swapped + s[k + 2..];
    KeepPair(s[k], s[k + 1]);
    KeepParts(s[..k], pair, s[k + 2..], true);
    KeepParts(s[..k], pair, s[k + 2..], false);
    KeepParts(s[..k], swapped, s[k + 2..], true);
    KeepParts(s[..k], swapped, s[k + 2..], false);
  }

  lemma KeepPair(used: MMapEnt, free: MMapEnt)
    requires !IsFree(used) && IsFree(free)
    ensures Keep([used, free], true) == Keep([free, used], true)
    ensures Keep([used, free], false) == Keep([free, used], false)
  {
    assert [used, free][1..] == [free] && [free, used][1..] == [used];
  }

  /** The partition loses and invents nothing, and puts exactly the free entries first. */
  lemma {:induction false} FreeFirstPartitions(s: seq<MMapEnt>)
    ensures multiset(Keep(s, true)) + multiset(Keep(s, false)) == multiset(s) == multiset(FreeFirst(s))
    ensures forall e | e in Keep(s, true) :: IsFree(e)
    ensures forall e | e in Keep(s, false) :: !IsFree(e)
  {
    if s != [] {
      FreeFirstPartitions(s[1..]);
      assert s == [s[0]] + s[1..];
    }
  }

  ghost predicate UsedStaysUsed(s: seq<MMapEnt>, i: nat, j: nat)
    requires i < |s| && j < |s|
  {
    !IsFree(s[i]) ==> !IsFree(s[j])
  }

  lemma {:induction false} PartitionedIsFreeFirst(s: seq<MMapEnt>)
    requires forall i: nat, j: nat | i <= j < |s| :: UsedStaysUsed(s, i, j)
    ensures FreeFirst(s) == s
  {
    if s != [] {
      var t := s[1..];
      forall i: nat, j: nat | i <= j < |t| ensures UsedStaysUsed(t, i, j) {
        assert UsedStaysUsed(s, i + 1, j + 1);
      }
      PartitionedIsFreeFirst(t);
      if !IsFree(s[0]) {
        forall j: nat | j < |s| ensures !IsFree(s[j]) { assert UsedStaysUsed(s, 0, j); }
        KeepNone(t);
      }
    }
  }

  lemma {:induction false} KeepNone(s: seq<MMapEnt>)
    requires forall j: nat | j < |s| :: !IsFree(s[j])
    ensures Keep(s, true) == []
  {
    if s != [] { KeepNone(s[1..]); }
  }

  /** The bubble pass. */
  method BubbleFreeFirst(a: array<MMapEnt>)
    modifies a
    ensures a[..] == FreeFirst(old(a[..]))
  {
    var right := a.Length - 1;
    while right > 0
      invariant a.Length > 0 ==> 0 <= right < a.Length
      invariant FreeFirst(a[..]) == FreeFirst(old(a[..]))
      invariant forall i: nat, j: nat | i <= j < a.Length && j > right :: UsedStaysUsed(a[..], i, j)
    {
      var left := 0;
      while left < right
        invariant 0 <= left <= right < a.Length
        invariant FreeFirst(a[..]) == FreeFirst(old(a[..]))
        invariant forall i: nat, j: nat | i <= j < a.Length && j > right :: UsedStaysUsed(a[..], i, j)
        invariant forall i: nat | i <= left :: UsedStaysUsed(a[..], i, left)
      {
        ghost var s := a[..];
        if !IsFree(a[left]) && IsFree(a[left + 1]) {
          SwapKeeps(s, left);
          a[left], a[left + 1] := a[left + 1], a[left];
          assert a[..] == s[left := s[left + 1]][left + 1 := s[left]];
        }
        forall i: nat, j: nat | i <= j < a.Length && j > right ensures UsedStaysUsed(a[..], i, j) {
          assert UsedStaysUsed(s, i, j) && UsedStaysUsed(s, left, j) && UsedStaysUsed(s, left + 1, j);
        }
        ghost var was := left;
        left := left + 1;
        forall i: nat | i <= left ensures UsedStaysUsed(a[..], i, left) {
          if i <= was { assert UsedStaysUsed(s, i, was); }
        }
      }
      right := right - 1;
    }
    forall i: nat, j: nat | i <= j < a.Length ensures UsedStaysUsed(a[..], i, j) {}
    PartitionedIsFreeFirst(a[..]);
  }

  lemma {:induction false} FreeFirstOrders(s: seq<MMapEnt>, t: seq<MMapEnt>)
    requires t == FreeFirst(s)
    ensures multiset(t) == multiset(s)
    ensures forall i, j | 0 <= i < j < |t| :: t[j].size % 16 == 1 ==> t[i].size % 16 == 1
  {
    FreeFirstPartitions(s);
    var free, used := Keep(s, true), Keep(s, false);
    forall i | 0 <= i < |t| ensures t[i].size % 16 == 1 <==> i < |free| {
      assert if i < |free| then t[i] == free[i] && free[i] in free else t[i] == used[i - |free|] && used[i - |free|] in used;
    }
  }

  /** SLOW_SORT with the swap of memory__init: the entries of type 1 come first, in their order, and the
      others after them in theirs. */
  method SortFreeFirst(a: array<MMapEnt>)
    modifies a
    ensures a[..] == FreeFirst(old(a[..])) && multiset(a[..]) == multiset(old(a[..]))
    ensures forall i, j | 0 <= i < j < a.Length :: a[j].size % 16 == 1 ==> a[i].size % 16 == 1
  {
    ghost var before := a[..];
    BubbleFreeFirst(a);
    FreeFirstOrders(before, a[..]);
    assert forall i | 0 <= i < a.Length :: a[i] == a[..][i];
  }

  // ---------------------------------------------------------------- stripping the types

  function Stripped(s: seq<MMapEnt>): (r: seq<MMapEnt>)
    ensures |r| == |s|
  {
    seq(|s|, i requires 0 <= i < |s| => s[i].(size := EntSize(s[i])))
  }

  /** The loop after the sort: drop the type bits of the free entries, and stop counting at the
      first entry of another type. */
  method StripLoop(a: array<MMapEnt>, ghost n: nat) returns (count: nat)
    requires n <= a.Length && (forall k | 0 <= k < n :: IsFree(a[k])) && (n < a.Length ==> !IsFree(a[n]))
    modifies a
    ensures count == n && a[..n] == Stripped(old(a[..n])) && a[n..] == old(a[n..])
  {
    count := 0;
    while count < a.Length
      invariant count <= n
      invariant forall k | 0 <= k < count :: a[k] == old(a[k]).(size := EntSize(old(a[k])))
      invariant forall k | count <= k < a.Length :: a[k] == old(a[k])
    {
      if !IsFree(a[count]) { break; }
      a[count] := a[count].(size := EntSize(a[count]));
      count := count + 1;
    }
  }

  /** Where the free entries of a sorted map end. */
  lemma SortedEnds(s: seq<MMapEnt>, kept: seq<MMapEnt>, rest: seq<MMapEnt>)
    requires s == kept + rest && kept == Keep(s, true) && rest == Keep(s, false)
    ensures s[..|kept|] == kept && s[|kept|..] == rest
    ensures forall k | 0 <= k < |kept| :: IsFree(s[k])
    ensures rest != [] ==> !IsFree(s[|kept|])
  {
    FreeFirstPartitions(s);
    assert forall k | 0 <= k < |kept| :: s[k] == kept[k] && kept[k] in kept;
    if rest != [] { assert s[|kept|] == rest[0] && rest[0] in rest; }
  }

  /** The loop over the sorted map: the entries of type 1 lose their type, the others stay. */
  method StripFree(a: array<MMapEnt>) returns (count: nat)
    requires FreeFirst(a[..]) == a[..]
    modifies a
    ensures count == |Keep(old(a[..]), true)| <= a.Length
    ensures a[..count] == Stripped(Keep(old(a[..]), true)) && a[count..] == Keep(old(a[..]), false)
    ensures forall k | 0 <= k < a.Length ::
              if k < count then old(a[..])[k].size % 16 == 1 && a[k] == MMapEnt(old(a[..])[k].ptr, old(a[..])[k].size - 1)
              else old(a[..])[k].size % 16 != 1 && a[k] == old(a[..])[k]
  {
    ghost var s, kept, rest := a[..], Keep(a[..], true), Keep(a[..], false);
    count := StripSorted(a);
    StripRaw(s, kept, rest, a[..], count);
  }

  method StripSorted(a: array<MMapEnt>) returns (count: nat)
    requires FreeFirst(a[..]) == a[..]
    modifies a
    ensures count == |Keep(old(a[..]), true)| <= a.Length
    ensures a[..count] == Stripped(Keep(old(a[..]), true)) && a[count..] == Keep(old(a[..]), false)
  {
    ghost var s, kept, rest := a[..], Keep(a[..], true), Keep(a[..], false);
    SortedEnds(s, kept, rest);
    assert a[..|kept|] == s[..|kept|] && a[|kept|..] == s[|kept|..];
    count := StripLoop(a, |kept|);
  }

  /** In words of the entries: those of type 1 come first and lose their type. */
  lemma StripRaw(s: seq<MMapEnt>, kept: seq<MMapEnt>, rest: seq<MMapEnt>, after: seq<MMapEnt>, count: nat)
    requires s == kept + rest && kept == Keep(s, true) && rest == Keep(s, false)
    requires count == |kept| && |after| == |s| && after[..count] == Stripped(kept) && after[count..] == rest
    ensures forall k | 0 <= k < |s| ::
              if k < count then s[k].size % 16 == 1 && after[k] == MMapEnt(s[k].ptr, s[k].size - 1)
              else s[k].size % 16 != 1 && after[k] == s[k]
  {
    FreeFirstPartitions(s);
    forall k | 0 <= k < |s|
      ensures if k < count then s[k].size % 16 == 1 && after[k] == MMapEnt(s[k].ptr, s[k].size - 1)
              else s[k].size % 16 != 1 && after[k] == s[k]
    {
      if k < count {
        assert s[k] == kept[k] && kept[k] in kept && after[k] == after[..count][k];
      } else {
        assert s[k] == rest[k - count] && rest[k - count] in rest && after[k] == after[count..][k - count];
      }
    }
  }

  // ---------------------------------------------------------------- alloc_from_entries

  function EndOf(e: MMapEnt): nat {
    e.ptr + e.size
  }

  /** Aligning the start of the entry does not go past its end, so the subtraction in
      alloc_from_entries does not wrap. */
  predicate Roomy(e: MMapEnt, align: nat)
    requires align > 0
  {
    RoundUp(e.ptr, align) <= EndOf(e) < TWO64
  }

  /** The size that alloc_from_entries computes for the aligned rest of an entry. */
  function AlignedSize(e: MMapEnt, align: nat): u64
    requires align > 0
  {
    (e.size + e.ptr + TWO64 - RoundUp(e.ptr, align) % TWO64) % TWO64
  }

  /** The computed size is the room behind the aligned start exactly for roomy entries. */
  lemma RoomComputed(e: MMapEnt, align: nat)
    requires align > 0 && EndOf(e) < TWO64 && RoundUp(e.ptr, align) < TWO64
    ensures AlignedSize(e, align) == EndOf(e) - RoundUp(e.ptr, align) <==> Roomy(e, align)
  {
  }

  /** For the alignment of the bit sets, the entries of the map whose size is a multiple of 16 are roomy
      unless they are empty and misaligned. */
  lemma RoomyEntries(e: MMapEnt)
    requires e.size % 16 == 0 && EndOf(e) < TWO64
    ensures Roomy(e, 8) <==> e.size > 0 || e.ptr % 8 == 0
  {
    RoundUpLeast(e.ptr, 8);
  }

  /** A misaligned empty entry counts as almost the whole address space, and so is the first with room
      for any request. */
  lemma PaddingWraps(size: u64)
    ensures AlignedSize(MMapEnt(1, 0), 8) == TWO64 - 7 && !Roomy(MMapEnt(1, 0), 8)
    ensures AlignedSize(MMapEnt(1, 0), 8) >= size <==> size <= TWO64 - 7
  {
  }

  predicate Fits(e: MMapEnt, size: nat, align: nat)
    requires align > 0
  {
    RoundUp(e.ptr, align) + size <= EndOf(e) < TWO64
  }

  /** The entry once `size` aligned bytes at its start are taken. */
  function Rest(e: MMapEnt, size: nat, align: nat): MMapEnt
    requires align > 0 && Fits(e, size, align)
  {
    RoundUpLeast(e.ptr, align);
    MMapEnt(RoundUp(e.ptr, align) + size, EndOf(e) - RoundUp(e.ptr, align) - size)
  }

  /** The first entry with room gives up its start; None stands for the failing assertion. */
  method AllocFromEntries(a: array<MMapEnt>, n: nat, bytes: nat, align: nat) returns (p: Option<nat>, ghost i: nat)
    requires n <= a.Length && 0 < bytes && 0 < align && RoundUp(bytes, align) < TWO64
    requires forall k | 0 <= k < n :: Roomy(a[k], align)
    modifies a
    ensures i <= n && forall k | 0 <= k < i :: !Fits(old(a[k]), RoundUp(bytes, align), align)
    ensures p == None ==> i == n && a[..] == old(a[..])
    ensures p.Some? ==> i < n && p.value == RoundUp(old(a[i]).ptr, align) && Fits(old(a[i]), RoundUp(bytes, align), align)
    ensures p.Some? ==> a[..] == old(a[..])[i := Rest(old(a[i]), RoundUp(bytes, align), align)]
    ensures p.Some? ==> old(a[..])[i].ptr <= p.value < old(a[..])[i].ptr + align && p.value % align == 0
    ensures p.Some? ==> p.value + bytes <= a[i].ptr < p.value + bytes + align && (a[i].ptr - p.value) % align == 0
    ensures p.Some? ==> a[i].ptr + a[i].size == old(a[..])[i].ptr + old(a[..])[i].size
    ensures forall k | 0 <= k < i ::
              old(a[..])[k].ptr + old(a[..])[k].size < RoundUp(old(a[..])[k].ptr, align) + RoundUp(bytes, align)
  {
    RoundUpLeast(bytes, align);
    var size := RoundUp(bytes, align);
    i := 0;
    var it := 0;
    while it < n
      invariant it == i <= n && a[..] == old(a[..])
      invariant forall k | 0 <= k < it :: !Fits(a[k], size, align)
    {
      RoundUpLeast(a[it].ptr, align);
      var start: u64 := RoundUp(a[it].ptr, align);
      RoomComputed(a[it], align);
      var room := AlignedSize(a[it], align);
      if room >= size {
        a[it] := MMapEnt(start + size, room - size);
        return Some(start), i;
      }
      it, i := it + 1, it + 1;
    }
    return None, i;
  }

  // ---------------------------------------------------------------- the allocator's own storage

  ghost predicate EntriesApart(s: seq<MMapEnt>) {
    forall i, j | 0 <= i < j < |s| :: Separate(s[i].ptr, EndOf(s[i]), s[j].ptr, EndOf(s[j]))
  }

  /** The entry may have lost bytes at its start. */
  predicate Shrunk(before: MMapEnt, after: MMapEnt) {
    before.ptr <= after.ptr <= EndOf(after) == EndOf(before)
  }

  /** The block lies in what the entry has lost. */
  predicate TakenFrom(before: MMapEnt, after: MMapEnt, b: Block) {
    before.ptr <= b.begin && Stop(b) <= after.ptr
  }

  lemma RestIsRoomy(e: MMapEnt, bytes: nat, align: nat)
    requires align > 0 && Roomy(e, align) && Fits(e, RoundUp(bytes, align), align)
    ensures var r := Rest(e, RoundUp(bytes, align), align);
            Roomy(r, align) && Shrunk(e, r) && e.ptr <= r.ptr - RoundUp(bytes, align) == RoundUp(e.ptr, align)
  {
    RoundUpLeast(e.ptr, align);
    var k, l := (e.ptr + align - 1) / align, (bytes + align - 1) / align;
    var p := RoundUp(e.ptr, align) + RoundUp(bytes, align);
    assert p == align * (k + l) by { assert k * align + l * align == align * (k + l); }
    QuotientUnique(p, align, k + l, 0);
    RoundUpLeast(p, align);
  }

  /** The blocks answer the first requests, in order, from what the entries have lost. */
  ghost predicate Storage(s: seq<MMapEnt>, t: seq<MMapEnt>, requests: seq<nat>, align: nat, blocks: seq<Block>, owners: seq<nat>)
    requires align > 0
  {
    && |s| == |t| && |blocks| == |owners| <= |requests|
    && (forall k | 0 <= k < |s| :: Shrunk(s[k], t[k]))
    && (forall i | 0 <= i < |blocks| :: owners[i] < |s| && TakenFrom(s[owners[i]], t[owners[i]], blocks[i]))
    && (forall i | 0 <= i < |blocks| :: blocks[i].begin % align == 0 && blocks[i].bytes == RoundUp(requests[i], align))
    && (forall i, j | 0 <= i < j < |blocks| :: Separate(blocks[i].begin, Stop(blocks[i]), blocks[j].begin, Stop(blocks[j])))
  }

  /** Address x lies in one of the blocks. */
  predicate InBlocks(blocks: seq<Block>, x: nat) {
    exists i | 0 <= i < |blocks| :: blocks[i].begin <= x < blocks[i].begin + blocks[i].bytes
  }

  /** But for the padding at its start, all that the entry has lost lies in blocks. */
  ghost predicate LostToBlocks(before: MMapEnt, after: MMapEnt, blocks: seq<Block>, align: nat)
    requires align > 0
  {
    after.ptr == before.ptr ||
    (after.ptr % align == 0 && forall x: nat | RoundUp(before.ptr, align) <= x < after.ptr :: InBlocks(blocks, x))
  }

  ghost predicate AllLost(s: seq<MMapEnt>, t: seq<MMapEnt>, blocks: seq<Block>, align: nat)
    requires align > 0
  {
    |s| == |t| && forall k | 0 <= k < |s| :: LostToBlocks(s[k], t[k], blocks, align)
  }

  lemma InMoreBlocks(blocks: seq<Block>, b: Block, x: nat)
    ensures InBlocks(blocks + [b], x) <==> InBlocks(blocks, x) || b.begin <= x < b.begin + b.bytes
  {
    var more := blocks + [b];
    if InBlocks(blocks, x) {
      var i :| 0 <= i < |blocks| && blocks[i].begin <= x < blocks[i].begin + blocks[i].bytes;
      assert more[i] == blocks[i];
    }
    if b.begin <= x < b.begin + b.bytes { assert more[|blocks|] == b; }
  }

  lemma LostMore(s: seq<MMapEnt>, t: seq<MMapEnt>, blocks: seq<Block>, align: nat, o: nat, bytes: nat)
    requires align > 0 && AllLost(s, t, blocks, align) && o < |t| && Roomy(t[o], align)
    requires Fits(t[o], RoundUp(bytes, align), align)
    ensures AllLost(s, t[o := Rest(t[o], RoundUp(bytes, align), align)],
                    blocks + [Block(RoundUp(t[o].ptr, align), RoundUp(bytes, align))], align)
  {
    var begin, size := RoundUp(t[o].ptr, align), RoundUp(bytes, align);
    var b := Block(begin, size);
    var t', more := t[o := Rest(t[o], size, align)], blocks + [b];
    RoundUpLeast(t[o].ptr, align);
    RestAligned(t[o].ptr, bytes, align);
    forall k | 0 <= k < |s| ensures LostToBlocks(s[k], t'[k], more, align) {
      assert LostToBlocks(s[k], t[k], blocks, align);
      if t'[k].ptr != s[k].ptr {
        forall x: nat | RoundUp(s[k].ptr, align) <= x < t'[k].ptr ensures InBlocks(more, x) {
          InMoreBlocks(blocks, b, x);
        }
      }
    }
  }

  lemma RestAligned(ptr: nat, bytes: nat, align: nat)
    requires align > 0
    ensures (RoundUp(ptr, align) + RoundUp(bytes, align)) % align == 0
  {
    var k, l := (ptr + align - 1) / align, (bytes + align - 1) / align;
    assert k * align + l * align == align * (k + l);
    QuotientUnique(align * (k + l), align, k + l, 0);
  }

  /** One more block, from the first entry with room. */
  lemma GrantOne(s: seq<MMapEnt>, t: seq<MMapEnt>, requests: seq<nat>, align: nat, blocks: seq<Block>, owners: seq<nat>, o: nat)
    requires align > 0 && EntriesApart(s) && Storage(s, t, requests, align, blocks, owners) && |blocks| < |requests|
    requires o < |t| && Roomy(t[o], align) && Fits(t[o], RoundUp(requests[|blocks|], align), align)
    ensures var bytes := RoundUp(requests[|blocks|], align);
            Storage(s, t[o := Rest(t[o], bytes, align)], requests, align,
                    blocks + [Block(RoundUp(t[o].ptr, align), bytes)], owners + [o])
    ensures Roomy(Rest(t[o], RoundUp(requests[|blocks|], align), align), align)
  {
    RestIsRoomy(t[o], requests[|blocks|], align);
    RoundUpLeast(t[o].ptr, align);
    assert forall i | 0 <= i < |blocks| && owners[i] != o ::
      Separate(s[owners[i]].ptr, EndOf(s[owners[i]]), s[o].ptr, EndOf(s[o]));
  }

  /** Granted blocks are disjoint from everything that remains, and what remains is still apart. */
  lemma GrantedIsGone(s: seq<MMapEnt>, t: seq<MMapEnt>, requests: seq<nat>, align: nat, blocks: seq<Block>, owners: seq<nat>)
    requires align > 0 && EntriesApart(s) && Storage(s, t, requests, align, blocks, owners)
    ensures EntriesApart(t)
    ensures forall i, k | 0 <= i < |blocks| && 0 <= k < |t| :: Separate(blocks[i].begin, Stop(blocks[i]), t[k].ptr, EndOf(t[k]))
  {
    forall i, k | 0 <= i < |blocks| && 0 <= k < |t|
      ensures Separate(blocks[i].begin, Stop(blocks[i]), t[k].ptr, EndOf(t[k]))
    {
      if owners[i] != k { assert Separate(s[owners[i]].ptr, EndOf(s[owners[i]]), s[k].ptr, EndOf(s[k])); }
    }
  }

  /** Successive calls of alloc_from_entries. */
  method TakeStorage(a: array<MMapEnt>, n: nat, requests: seq<nat>, align: nat)
    returns (ok: bool, blocks: seq<Block>, ghost owners: seq<nat>)
    requires n <= a.Length && 0 < align && EntriesApart(a[..n])
    requires forall k | 0 <= k < n :: Roomy(a[k], align)
    requires forall k | 0 <= k < |requests| :: 0 < requests[k] && RoundUp(requests[k], align) < TWO64
    modifies a
    ensures Storage(old(a[..n]), a[..n], requests, align, blocks, owners) && a[n..] == old(a[n..])
    ensures ok ==> |blocks| == |requests|
    ensures !ok ==> |blocks| < |requests|
    ensures !ok ==> forall k | 0 <= k < n :: !Fits(a[k], RoundUp(requests[|blocks|], align), align)
    ensures AllLost(old(a[..n]), a[..n], blocks, align)
  {
    blocks, owners := [], [];
    ghost var s := a[..n];
    while |blocks| < |requests|
      invariant Storage(s, a[..n], requests, align, blocks, owners) && a[n..] == old(a[n..])
      invariant forall k | 0 <= k < n :: Roomy(a[k], align)
      invariant AllLost(s, a[..n], blocks, align)
    {
      ghost var t := a[..n];
      var bytes := requests[|blocks|];
      var p;
      ghost var o;
      p, o := AllocFromEntries(a, n, bytes, align);
      if p == None { return false, blocks, owners; }
      GrantOne(s, t, requests, align, blocks, owners, o);
      LostMore(s, t, blocks, align, o, bytes);
      assert a[..n] == t[o := Rest(t[o], RoundUp(bytes, align), align)];
      blocks, owners := blocks + [Block(p.value, RoundUp(bytes, align))], owners + [o];
    }
    return true, blocks, owners;
  }

  // ---------------------------------------------------------------- the release loop

  /** Page p lies inside the entry. */
  predicate HoldsPage(e: MMapEnt, p: nat) {
    e.ptr <= 4096 * p && 4096 * p + 4096 <= EndOf(e)
  }

  predicate InSome(entries: seq<MMapEnt>, p: nat) {
    exists k | 0 <= k < |entries| :: HoldsPage(entries[k], p)
  }

  function FirstPage(e: MMapEnt): nat {
    RoundUp(e.ptr, 4096) / 4096
  }

  function LastPage(e: MMapEnt): nat {
    EndOf(e) / 4096
  }

  /** The pages of the entry do not end before they begin: set_range asserts this. */
  predicate Ordered(e: MMapEnt) {
    FirstPage(e) <= LastPage(e)
  }

  lemma PagesInside(e: MMapEnt, p: nat)
    ensures HoldsPage(e, p) <==> FirstPage(e) <= p < LastPage(e)
    ensures RoundUp(e.ptr, 4096) == 4096 * FirstPage(e)
  {
    RoundUpLeast(e.ptr, 4096);
  }

  /** The pages are ordered exactly when a page boundary lies in the entry or at its end. */
  lemma OrderedHasBoundary(e: MMapEnt)
    ensures Ordered(e) <==> exists p: nat :: AtBoundary(e, p)
  {
    RoundUpLeast(e.ptr, 4096);
    var first, last := FirstPage(e), LastPage(e);
    if Ordered(e) { assert AtBoundary(e, first); }
    if p: nat :| AtBoundary(e, p) { assert first <= p <= last; }
  }

  predicate AtBoundary(e: MMapEnt, p: nat) {
    e.ptr <= 4096 * p <= EndOf(e)
  }

  /** Sixteen bytes inside a page stop the release loop. */
  lemma NoBoundary()
    ensures FirstPage(MMapEnt(4112, 16)) == 2 && LastPage(MMapEnt(4112, 16)) == 1 && !Ordered(MMapEnt(4112, 16))
  {
  }

  /** The quantities of the release loop. */
  lemma Measures(e: MMapEnt, begin: nat, end: nat, size: int)
    requires begin == RoundUp(e.ptr, 4096) && end == EndOf(e) / 4096 * 4096
    requires size == (if end > begin then end else begin) - begin
    ensures begin / 4096 == FirstPage(e) && end / 4096 == LastPage(e)
    ensures Ordered(e) ==> size == Bytes(LastPage(e) - FirstPage(e))
  {
    PagesInside(e, 0);
  }

  /** The free pages are those inside the entries. */
  ghost predicate Collected(f: FreeBlocks.Pages, entries: seq<MMapEnt>) {
    forall p: nat | p < |f| :: f[p] <==> InSome(entries, p)
  }

  /** An entry apart from the others shares no page with them. */
  lemma PagesApart(entries: seq<MMapEnt>, e: MMapEnt, p: nat)
    requires EntriesApart(entries + [e]) && HoldsPage(e, p)
    ensures !InSome(entries, p)
  {
    var all := entries + [e];
    forall k | 0 <= k < |entries| ensures !HoldsPage(entries[k], p) {
      assert all[k] == entries[k] && all[|entries|] == e;
      assert Separate(all[k].ptr, EndOf(all[k]), all[|entries|].ptr, EndOf(all[|entries|]));
    }
  }

  lemma InOneMore(entries: seq<MMapEnt>, e: MMapEnt, p: nat)
    ensures InSome(entries + [e], p) <==> InSome(entries, p) || HoldsPage(e, p)
  {
    var all := entries + [e];
    if HoldsPage(e, p) { assert HoldsPage(all[|entries|], p); }
    if InSome(entries, p) {
      var k :| 0 <= k < |entries| && HoldsPage(entries[k], p);
      assert HoldsPage(all[k], p);
    }
  }

  lemma CollectOne(f: FreeBlocks.Pages, entries: seq<MMapEnt>, e: MMapEnt)
    requires Collected(f, entries) && EntriesApart(entries + [e]) && Ordered(e) && LastPage(e) <= |f|
    ensures NoneIn(f, FirstPage(e), LastPage(e))
    ensures Collected(WithRange(f, FirstPage(e), LastPage(e), true), entries + [e])
  {
    var first, last := FirstPage(e), LastPage(e);
    var g := WithRange(f, first, last, true);
    forall p: nat | p < |f|
      ensures first <= p < last ==> !f[p]
      ensures g[p] <==> InSome(entries + [e], p)
    {
      PagesInside(e, p);
      InOneMore(entries, e, p);
      if first <= p < last { PagesApart(entries, e, p); }
    }
  }

  /** Mark pages as usable, and release them. */
  method ReleaseUsable(heap: Heap, begin: nat, end: nat)
    requires heap.Valid() && heap.Usable() == heap.Free()
    requires begin <= end <= heap.pageCount && NoneIn(heap.Free(), begin, end)
    modifies heap, heap.linkData, heap.buddyData, heap.freePages.data, heap.usablePages.data
    ensures heap.Valid() && heap.Free() == heap.Usable() == WithRange(old(heap.Free()), begin, end, true)
    ensures heap.freeMemory == old(heap.freeMemory) + Bytes(end - begin)
  {
    ghost var f := heap.Free();
    heap.usablePages.SetRange(begin, end, true);
    assert heap.Valid();
    heap.ReleasePages(begin, end - begin);
    FreeBytesChange(f, begin, end, true);
  }

  /** The body of the release loop. */
  method ReleaseEntry(heap: Heap, entry: MMapEnt, ghost before: seq<MMapEnt>) returns (ok: bool, size: int)
    requires heap.Valid() && heap.Usable() == heap.Free() && Collected(heap.Free(), before)
    requires EntriesApart(before + [entry]) && LastPage(entry) <= heap.pageCount
    modifies heap, heap.linkData, heap.buddyData, heap.freePages.data, heap.usablePages.data
    ensures heap.Valid() && heap.Usable() == heap.Free() && (ok <==> Ordered(entry))
    ensures ok ==> Collected(heap.Free(), before + [entry]) && heap.freeMemory == old(heap.freeMemory) + size
  {
    var begin, end := RoundUp(entry.ptr, 4096), EndOf(entry) / 4096 * 4096;
    var beginPage, endPage := begin / 4096, end / 4096;
    size := (if end > begin then end else begin) - begin;
    Measures(entry, begin, end, size);
    if beginPage > endPage { return false, size; }
    CollectOne(heap.Free(), before, entry);
    ReleaseUsable(heap, beginPage, endPage);
    return true, size;
  }

  lemma ApartPrefix(s: seq<MMapEnt>, n: nat)
    requires EntriesApart(s) && n < |s|
    ensures s[..n + 1] == s[..n] + [s[n]] && EntriesApart(s[..n + 1])
  {
  }

  /** The release loop of memory__init: when it gets through, the free pages are the usable ones are
      the whole pages inside the entries, and the assertion on the byte counter holds.  It stops at
      the assertion of set_range exactly when some entry's pages are not ordered. */
  method ReleaseEntries(heap: Heap, entries: seq<MMapEnt>) returns (ok: bool)
    requires heap.Valid() && NoneIn(heap.Free(), 0, heap.pageCount) && NoneIn(heap.Usable(), 0, heap.pageCount)
    requires EntriesApart(entries) && forall k | 0 <= k < |entries| :: LastPage(entries[k]) <= heap.pageCount
    modifies heap, heap.linkData, heap.buddyData, heap.freePages.data, heap.usablePages.data
    ensures ok <==> forall k | 0 <= k < |entries| :: Ordered(entries[k])
    ensures heap.Valid() && heap.Usable() == heap.Free()
    ensures ok ==> Collected(heap.Free(), entries)
  {
    var available := 0;
    var index := 0;
    ghost var past := [];
    CountUniform(heap.Free(), 0, heap.pageCount, false);
    while index < |entries|
      invariant index <= |entries| && heap.Valid() && heap.Usable() == heap.Free() && past == entries[..index]
      invariant Collected(heap.Free(), past) && available == heap.freeMemory
      invariant forall k | 0 <= k < index :: Ordered(entries[k])
    {
      ApartPrefix(entries, index);
      var size;
      ok, size := ReleaseEntry(heap, entries[index], past);
      if !ok { return; }
      available := available + size;
      past := past + [entries[index]];
      index := index + 1;
    }
    assert past == entries;
    assert available == heap.freeMemory;
    return true;
  }

  // ---------------------------------------------------------------- building the allocator

  /** BitSet__from_raw on storage of its own. */
  method NewBitSet(count: nat) returns (b: BitSet)
    ensures fresh(b) && fresh(b.data) && b.Valid() && b.count == count
  {
    var data := new u64[(count + 63) / 64](_ => 0);
    b := new BitSet.FromRaw(data, count);
  }

  /** The length of the bit set for the pairs of class c. */
  function BuddyBitCount(pageCount: nat, c: nat): nat {
    RoundUp(Shr(pageCount, c + 1), 8)
  }

  method NewBuddies(classCount: nat, pageCount: nat) returns (buddies: seq<BitSet>)
    requires classCount >= 1
    ensures |buddies| == classCount - 1
    ensures forall c | 0 <= c < |buddies| :: fresh(buddies[c].data) && buddies[c].Valid()
    ensures forall c | 0 <= c < |buddies| :: buddies[c].count == BuddyBitCount(pageCount, c)
    ensures forall c, d | 0 <= c < d < |buddies| :: buddies[c].data != buddies[d].data
  {
    buddies := [];
    while |buddies| < classCount - 1
      invariant |buddies| <= classCount - 1
      invariant forall c | 0 <= c < |buddies| :: fresh(buddies[c].data) && buddies[c].Valid()
      invariant forall c | 0 <= c < |buddies| :: buddies[c].count == BuddyBitCount(pageCount, c)
      invariant forall c, d | 0 <= c < d < |buddies| :: buddies[c].data != buddies[d].data
    {
      var b := NewBitSet(BuddyBitCount(pageCount, |buddies|));
      buddies := buddies + [b];
    }
  }

  /** The sizes in bytes that memory__init asks alloc_from_entries for. */
  function Requests(classCount: nat, endPage: nat, pageCount: nat): (r: seq<nat>)
    requires classCount >= 1 && endPage >= 1
  {
    [(endPage - 1) / 8 + 1, (endPage - 1) / 8 + 1] +
    seq(classCount - 1, c requires 0 <= c < classCount - 1 => BuddyBitCount(pageCount, c) / 8)
  }

  /** buddy_end_page: all pages below the end, rounded up to whole blocks of twice the top class. */
  function PageCount(classCount: nat, end: nat): nat {
    RoundUp(end, 4096 * Pow2(classCount)) / 4096
  }

  lemma PageCountAligned(classCount: nat, end: nat)
    requires classCount >= 1 && end > 0
    ensures Aligned(PageCount(classCount, end), classCount) && end <= 4096 * PageCount(classCount, end)
    ensures PageCount(classCount, end) > 0
  {
    var m := Pow2(classCount);
    var size := 4096 * m;
    RoundUpLeast(end, size);
    var q := (end + size - 1) / size;
    BlockMultiple(q, m, RoundUp(end, size));
    AlignedIsMod(q * m, classCount);
  }

  lemma BlockMultiple(q: nat, m: nat, n: nat)
    requires m > 0 && n == q * (4096 * m)
    ensures n / 4096 == q * m && 4096 * (q * m) == n && q * m % m == 0
  {
    assert q * (4096 * m) == 4096 * (q * m);
    QuotientUnique(n, 4096, q * m, 0);
    assert q * m == m * q;
    QuotientUnique(q * m, m, q, 0);
  }

  /** The bits that the storage of a page bit set holds once alloc_from_entries has rounded it up. */
  function StoredBits(endPage: nat): nat
    requires endPage >= 1
  {
    8 * RoundUp((endPage - 1) / 8 + 1, 8)
  }

  /** memory__init reserves bits for end_page pages and uses the bit sets for buddy_end_page pages:
      the storage holds all of them exactly when rounding up adds fewer than 64 pages. */
  lemma PageBitsFit(classCount: nat, end: nat)
    requires classCount >= 1 && end > 0
    ensures StoredBits(RoundUpPages(end)) >= PageCount(classCount, end) <==>
            PageCount(classCount, end) < RoundUpPages(end) + 64
  {
    var p, e := PageCount(classCount, end), RoundUpPages(end);
    PagesAdded(classCount, end);
    StoredBitsAre(e);
    if classCount < 6 {
      DividesPow2(StoredBits(e), classCount);
      NoMultipleBetween(StoredBits(e), p, Pow2(classCount));
    } else {
      AlignedWeaken(p, classCount, 6);
      AlignedIsMod(p, 6);
      if p < e + 64 { NoMultipleBetween(StoredBits(e), p, 64); }
    }
  }

  lemma PagesAdded(classCount: nat, end: nat)
    requires classCount >= 1 && end > 0
    ensures var p, e := PageCount(classCount, end), RoundUpPages(end);
            Aligned(p, classCount) && p % Pow2(classCount) == 0 && 1 <= e <= p < e + Pow2(classCount)
  {
    PageCountAligned(classCount, end);
    AlignedIsMod(PageCount(classCount, end), classCount);
    RoundUpLeast(end, 4096);
    RoundUpLeast(end, 4096 * Pow2(classCount));
  }

  lemma DividesPow2(s: nat, c: nat)
    requires s % 64 == 0 && c < 6
    ensures s % Pow2(c) == 0 && Pow2(c) <= 32
  {
    AlignedIsMod(s, 6);
    AlignedWeaken(s, 6, c);
    AlignedIsMod(s, c);
    Pow2Monotone(c, 5);
  }

  lemma StoredBitsAre(e: nat)
    requires e >= 1
    ensures e <= StoredBits(e) < e + 64 && StoredBits(e) % 64 == 0
  {
    var q := (e - 1) / 8 + 1;
    var r := RoundUp(q, 8);
    BytesOfBits(e, q);
    RoundUpLeast(q, 8);
    WordsOfBytes(q, r, r / 8);
  }

  lemma BytesOfBits(e: nat, q: nat)
    requires e >= 1 && q == (e - 1) / 8 + 1
    ensures e <= 8 * q < e + 8
  {
  }

  /** Rounded up to whole words. */
  lemma WordsOfBytes(q: nat, r: nat, m: nat)
    requires q <= r < q + 8 && r == 8 * m
    ensures 8 * r % 64 == 0 && 8 * q <= 8 * r <= 8 * q + 56
  {
    QuotientUnique(8 * r, 64, m, 0);
  }

  lemma NoMultipleBetween(s: nat, p: nat, m: nat)
    requires m > 0 && s % m == 0 && p % m == 0 && p < s + m
    ensures p <= s
  {
    var a, b := s / m, p / m;
    assert s == m * a && p == m * b;
    assert m * b == m * a + m * (b - a);
    MulAtLeast(m, b - a);
  }

  /** With the twelve classes and one page of memory, 64 bits are reserved for 4096. */
  lemma PageBitsOverrun()
    ensures PageCount(12, 4096) == 4096 && StoredBits(RoundUpPages(4096)) == 64
  {
    assert Pow2(12) == 4096;
    OnePageOfMemory(12, 4096);
  }

  lemma OnePageOfMemory(classCount: nat, m: nat)
    requires classCount >= 1 && Pow2(classCount) == m == 4096
    ensures PageCount(classCount, m) == m && StoredBits(RoundUpPages(m)) == 64
  {
    RoundUpLeast(m, 4096);
    PagesAdded(classCount, m);
    StoredBitsAre(RoundUpPages(m));
  }

  lemma RequestsPositive(classCount: nat, endPage: nat, pageCount: nat)
    requires classCount >= 1 && endPage > 0 && Aligned(pageCount, classCount) && pageCount > 0
    requires endPage < TWO64 / 2 && pageCount < TWO64 / 2
    ensures forall k | 0 <= k < |Requests(classCount, endPage, pageCount)| ::
              0 < Requests(classCount, endPage, pageCount)[k] &&
              RoundUp(Requests(classCount, endPage, pageCount)[k], 8) < TWO64
  {
    var r := Requests(classCount, endPage, pageCount);
    forall k | 0 <= k < |r| ensures 0 < r[k] && RoundUp(r[k], 8) < TWO64 {
      if k < 2 {
        RoundUpLeast(r[k], 8);
      } else {
        BuddyRequest(classCount, pageCount, k - 2);
      }
    }
  }

  lemma BuddyRequest(classCount: nat, pageCount: nat, c: nat)
    requires c + 1 < classCount && Aligned(pageCount, classCount) && 0 < pageCount < TWO64 / 2
    ensures 0 < BuddyBitCount(pageCount, c) / 8 && RoundUp(BuddyBitCount(pageCount, c) / 8, 8) < TWO64
  {
    var pairs := Shr(pageCount, c + 1);
    AlignedWeaken(pageCount, classCount, c + 1);
    ShrPositive(pageCount, c + 1);
    RoundUpLeast(pairs, 8);
    RoundUpLeast(BuddyBitCount(pageCount, c) / 8, 8);
  }

  lemma {:induction false} ShrPositive(v: nat, n: nat)
    requires Aligned(v, n) && v > 0
    ensures 0 < Shr(v, n) <= v
  {
    if n > 0 { ShrPositive(v / 2, n - 1); }
  }

  /** An allocator with fresh bit sets, in which no page is usable yet. */
  method NewHeap(classCount: nat, pageCount: nat) returns (heap: Heap)
    requires classCount >= 1 && Aligned(pageCount, classCount)
    ensures fresh(heap) && fresh(heap.linkData) && fresh(heap.buddyData)
    ensures fresh(heap.freePages.data) && fresh(heap.usablePages.data)
    ensures heap.Valid() && heap.classCount == classCount && heap.pageCount == pageCount
    ensures NoneIn(heap.Free(), 0, pageCount) && NoneIn(heap.Usable(), 0, pageCount)
  {
    var usablePages := NewBitSet(pageCount);
    var freePages := NewBitSet(pageCount);
    var buddies := NewBuddies(classCount, pageCount);
    forall c | 0 <= c < |buddies| ensures buddies[c].count >= Shr(pageCount, c + 1) {
      RoundUpLeast(Shr(pageCount, c + 1), 8);
    }
    heap := new Heap(classCount, pageCount, usablePages, freePages, buddies);
  }

  /** What memory__init needs from the boot loader: the free entries are apart, none is empty and
      misaligned, and they end where the last entry does or before. */
  ghost predicate BootMap(s: seq<MMapEnt>, end: nat) {
    && 0 < end < TWO64
    && EntriesApart(Stripped(Keep(s, true)))
    && (forall k | 0 <= k < |Keep(s, true)| :: BootEntry(Stripped(Keep(s, true))[k], end))
  }

  predicate BootEntry(e: MMapEnt, end: nat) {
    (e.size > 0 || e.ptr % 8 == 0) && EndOf(e) <= end
  }

  lemma BootEntriesRoomy(s: seq<MMapEnt>, end: nat)
    requires BootMap(s, end)
    ensures forall k | 0 <= k < |Keep(s, true)| :: Roomy(Stripped(Keep(s, true))[k], 8)
  {
    var entries := Stripped(Keep(s, true));
    forall k | 0 <= k < |entries| ensures Roomy(entries[k], 8) {
      assert BootEntry(entries[k], end);
      RoomyEntries(entries[k]);
    }
  }

  /** No entry has room for the next bit set. */
  predicate NoRoom(left: seq<MMapEnt>, bytes: nat) {
    forall k | 0 <= k < |left| :: !Fits(left[k], RoundUp(bytes, 8), 8)
  }

  lemma PagesWithin(bytes: nat, pages: nat)
    requires bytes <= 4096 * pages
    ensures bytes / 4096 <= pages
  {
  }

  /** Sort the map, and keep the entries of type 1 without their type. */
  method FreeEntries(mmap: array<MMapEnt>) returns (count: nat)
    modifies mmap
    ensures count == |Keep(old(mmap[..]), true)| <= mmap.Length
    ensures mmap[..count] == Stripped(Keep(old(mmap[..]), true))
  {
    ghost var s := mmap[..];
    SortFreeFirst(mmap);
    FreeFirstTwice(s);
    count := StripFree(mmap);
  }

  /** memory__init up to its first validate_heap, in terms of what `left` of the map the allocator's own
      storage has left. */
  method BuildFromLeft(mmap: array<MMapEnt>, classCount: nat)
    returns (heap: Option<Heap>, ghost left: seq<MMapEnt>, ghost blocks: seq<Block>, ghost owners: seq<nat>)
    requires classCount >= 1 && mmap.Length > 0
    requires BootMap(mmap[..], mmap[mmap.Length - 1].ptr + EntSize(mmap[mmap.Length - 1]))
    requires PageCount(classCount, mmap[mmap.Length - 1].ptr + EntSize(mmap[mmap.Length - 1])) < TWO64 / 2
    modifies mmap
    ensures var end := old(mmap[mmap.Length - 1].ptr + EntSize(mmap[mmap.Length - 1]));
            Storage(Stripped(Keep(old(mmap[..]), true)), left,
                    Requests(classCount, RoundUpPages(end), PageCount(classCount, end)), 8, blocks, owners) &&
            (heap.Some? ==> |blocks| == classCount + 1 && heap.value.pageCount == PageCount(classCount, end))
    ensures AllLost(Stripped(Keep(old(mmap[..]), true)), left, blocks, 8)
    ensures heap.Some? ==> heap.value.Valid() && heap.value.classCount == classCount
    ensures heap.Some? ==> heap.value.Usable() == heap.value.Free() && Collected(heap.value.Free(), left)
    ensures heap.Some? <==> |blocks| == classCount + 1 && forall k | 0 <= k < |left| :: Ordered(left[k])
    ensures var end := old(mmap[mmap.Length - 1].ptr + EntSize(mmap[mmap.Length - 1]));
            |blocks| <= classCount ==>
              NoRoom(left, Requests(classCount, RoundUpPages(end), PageCount(classCount, end))[|blocks|])
  {
    ghost var s := mmap[..];
    var last := mmap[mmap.Length - 1];
    var end := last.ptr + EntSize(last);
    var endPage := RoundUpPages(end);
    var count := FreeEntries(mmap);
    var pageCount := PageCount(classCount, end);
    PageCountAligned(classCount, end);
    var requests := Requests(classCount, endPage, pageCount);
    RequestsPositive(classCount, endPage, pageCount);
    var ok;
    BootEntriesRoomy(s, end);
    ok, blocks, owners := TakeStorage(mmap, count, requests, 8);
    left := mmap[..count];
    GrantedIsGone(Stripped(Keep(s, true)), left, requests, 8, blocks, owners);
    if !ok { return None, left, blocks, owners; }
    forall k | 0 <= k < count ensures LastPage(left[k]) <= pageCount {
      PagesWithin(EndOf(left[k]), pageCount);
    }
    var h := NewHeap(classCount, pageCount);
    ok := ReleaseEntries(h, mmap[..count]);
    if !ok { return None, left, blocks, owners; }
    return Some(h), left, blocks, owners;
  }

  /** Page p lies inside an entry of type 1, usable memory. */
  ghost predicate InUsable(s: seq<MMapEnt>, p: nat) {
    exists k | 0 <= k < |s| ::
      s[k].size % 16 == 1 && s[k].ptr <= 4096 * p && 4096 * p + 4096 <= s[k].ptr + (s[k].size - 1)
  }

  /** Page p has a byte in an entry of another type. */
  ghost predicate InReserved(s: seq<MMapEnt>, p: nat) {
    exists k | 0 <= k < |s| ::
      s[k].size % 16 != 1 && s[k].ptr < 4096 * p + 4096 && 4096 * p < s[k].ptr + (s[k].size - s[k].size % 16)
  }

  /** No byte belongs to two entries. */
  ghost predicate MapApart(s: seq<MMapEnt>) {
    forall i, j | 0 <= i < |s| && 0 <= j < |s| && i != j ::
      s[i].ptr + (s[i].size - s[i].size % 16) <= s[j].ptr || s[j].ptr + (s[j].size - s[j].size % 16) <= s[i].ptr
  }

  lemma {:induction false} KeptIsIn(s: seq<MMapEnt>, k: nat)
    requires k < |Keep(s, true)|
    ensures exists i | 0 <= i < |s| :: s[i] == Keep(s, true)[k] && s[i].size % 16 == 1
  {
    if IsFree(s[0]) && k == 0 {
      assert s[0] == Keep(s, true)[k];
    } else {
      var rest := if IsFree(s[0]) then k - 1 else k;
      KeptIsIn(s[1..], rest);
      var i :| 0 <= i < |s| - 1 && s[1..][i] == Keep(s[1..], true)[rest] && s[1..][i].size % 16 == 1;
      assert s[i + 1] == s[1..][i];
    }
  }

  /** A page in what is left of the free entries lies inside an entry of type 1. */
  lemma LeftIsUsable(s: seq<MMapEnt>, left: seq<MMapEnt>, p: nat)
    requires |left| == |Keep(s, true)| && InSome(left, p)
    requires forall k | 0 <= k < |left| :: Shrunk(Stripped(Keep(s, true))[k], left[k])
    ensures InUsable(s, p)
  {
    var k :| 0 <= k < |left| && HoldsPage(left[k], p);
    KeptIsIn(s, k);
    assert Shrunk(Stripped(Keep(s, true))[k], left[k]);
  }

  /** Page p has a byte in one of the blocks. */
  ghost predicate TouchesBlock(blocks: seq<Block>, p: nat) {
    exists i | 0 <= i < |blocks| :: blocks[i].begin < 4096 * p + 4096 && 4096 * p < blocks[i].begin + blocks[i].bytes
  }

  lemma {:induction false} InIsKept(s: seq<MMapEnt>, i: nat) returns (k: nat)
    requires i < |s| && s[i].size % 16 == 1
    ensures k < |Keep(s, true)| && Keep(s, true)[k] == s[i]
  {
    if i == 0 { return 0; }
    var rest := InIsKept(s[1..], i - 1);
    k := if IsFree(s[0]) then rest + 1 else rest;
  }

  /** A page inside an entry of type 1 is still inside what is left of it unless a block touches it. */
  lemma UsableIsLeft(s: seq<MMapEnt>, left: seq<MMapEnt>, blocks: seq<Block>, p: nat)
    requires |left| == |Keep(s, true)| && InUsable(s, p) && !TouchesBlock(blocks, p)
    requires forall k | 0 <= k < |left| :: Shrunk(Stripped(Keep(s, true))[k], left[k])
    requires AllLost(Stripped(Keep(s, true)), left, blocks, 8)
    ensures InSome(left, p)
  {
    var i :| 0 <= i < |s| && s[i].size % 16 == 1 && s[i].ptr <= 4096 * p && 4096 * p + 4096 <= s[i].ptr + (s[i].size - 1);
    var k := InIsKept(s, i);
    var before := Stripped(Keep(s, true))[k];
    assert Shrunk(before, left[k]) && LostToBlocks(before, left[k], blocks, 8);
    PageStartsBehind(before.ptr, p);
    assert !InBlocks(blocks, 4096 * p);
    assert HoldsPage(left[k], p);
  }

  lemma PageStartsBehind(ptr: nat, p: nat)
    requires ptr <= 4096 * p
    ensures RoundUp(ptr, 8) <= 4096 * p
  {
    RoundUpLeast(ptr, 8);
    var q := RoundUp(ptr, 8) / 8;
    assert 4096 * p == 8 * (512 * p) && RoundUp(ptr, 8) == 8 * q;
  }

  lemma LeftIffUsable(s: seq<MMapEnt>, left: seq<MMapEnt>, blocks: seq<Block>, p: nat)
    requires |left| == |Keep(s, true)| && AllLost(Stripped(Keep(s, true)), left, blocks, 8)
    requires forall k | 0 <= k < |left| :: Shrunk(Stripped(Keep(s, true))[k], left[k])
    requires forall i, k | 0 <= i < |blocks| && 0 <= k < |left| ::
               Separate(blocks[i].begin, Stop(blocks[i]), left[k].ptr, EndOf(left[k]))
    ensures InSome(left, p) <==> InUsable(s, p) && !TouchesBlock(blocks, p)
  {
    if InSome(left, p) {
      LeftIsUsable(s, left, p);
      var k :| 0 <= k < |left| && HoldsPage(left[k], p);
      forall i | 0 <= i < |blocks|
        ensures !(blocks[i].begin < 4096 * p + 4096 && 4096 * p < blocks[i].begin + blocks[i].bytes)
      {
        assert Separate(blocks[i].begin, Stop(blocks[i]), left[k].ptr, EndOf(left[k]));
      }
    }
    if InUsable(s, p) && !TouchesBlock(blocks, p) { UsableIsLeft(s, left, blocks, p); }
  }

  lemma UsableIsNotReserved(s: seq<MMapEnt>, p: nat)
    requires MapApart(s) && InUsable(s, p)
    ensures !InReserved(s, p)
  {
  }

  /** The bits that the storage of every bit set must have. */
  lemma BitsReserved(classCount: nat, end: nat, requests: seq<nat>, blocks: seq<Block>)
    requires classCount >= 1 && end > 0 && requests == Requests(classCount, RoundUpPages(end), PageCount(classCount, end))
    requires |blocks| == |requests| && forall i | 0 <= i < |blocks| :: blocks[i].bytes == RoundUp(requests[i], 8)
    ensures 4096 * (8 * blocks[0].bytes) >= end && 4096 * (8 * blocks[1].bytes) >= end
    ensures forall i | 2 <= i <= classCount :: HasBits(blocks[i], PageCount(classCount, end), i - 2)
  {
    RoundUpLeast(end, 4096);
    BytesOfBits(RoundUpPages(end), requests[0]);
    forall i | 0 <= i < |blocks| ensures blocks[i].bytes >= requests[i] { RoundUpLeast(requests[i], 8); }
    forall i | 2 <= i <= classCount ensures HasBits(blocks[i], PageCount(classCount, end), i - 2) {
      PagesAdded(classCount, end);
      PairBits(PageCount(classCount, end), classCount, i - 2, requests[i], blocks[i].bytes);
    }
  }

  /** The block holds a bit for every pair of blocks of class c among n pages. */
  predicate HasBits(b: Block, n: nat, c: nat) {
    8 * b.bytes * Pow2(c + 1) >= n
  }

  lemma PairBits(n: nat, k: nat, c: nat, request: nat, bytes: nat)
    requires Aligned(n, k) && c + 1 < k && request == BuddyBitCount(n, c) / 8 && bytes >= request
    ensures 8 * bytes * Pow2(c + 1) >= n
  {
    var m, pairs := Pow2(c + 1), Shr(n, c + 1);
    AlignedWeaken(n, k, c + 1);
    AlignedIsMod(n, c + 1);
    ShrIsDivision(n, c + 1);
    RequestBits(pairs, request, bytes);
    AtLeastTimes(8 * bytes, pairs, m);
    WholeMultiple(n, m, pairs);
  }

  lemma RequestBits(pairs: nat, request: nat, bytes: nat)
    requires request == RoundUp(pairs, 8) / 8 && bytes >= request
    ensures 8 * bytes >= pairs
  {
    RoundUpLeast(pairs, 8);
  }

  lemma WholeMultiple(n: nat, m: nat, q: nat)
    requires m > 0 && n % m == 0 && q == n / m
    ensures n == q * m
  {
  }

  lemma AtLeastTimes(x: nat, y: nat, m: nat)
    requires x >= y
    ensures x * m >= y * m
  {
  }

  /** memory__init up to its first validate_heap.  The allocator starts out with exactly the whole pages
      of the free entries that its own storage has left; `left` is what remains of the map.  Whatever is
      free lies inside entries of type 1, and not in entries of another type unless the map says so
      twice; the blocks of storage hold a bit for every page, and for every pair of blocks of a class. */
  method BuildAllocator(mmap: array<MMapEnt>, classCount: nat)
    returns (heap: Option<Heap>, ghost left: seq<MMapEnt>, ghost blocks: seq<Block>, ghost owners: seq<nat>)
    requires classCount >= 1 && mmap.Length > 0
    requires BootMap(mmap[..], mmap[mmap.Length - 1].ptr + EntSize(mmap[mmap.Length - 1]))
    requires PageCount(classCount, mmap[mmap.Length - 1].ptr + EntSize(mmap[mmap.Length - 1])) < TWO64 / 2
    modifies mmap
    ensures var end := old(mmap[mmap.Length - 1].ptr + EntSize(mmap[mmap.Length - 1]));
            Storage(Stripped(Keep(old(mmap[..]), true)), left,
                    Requests(classCount, RoundUpPages(end), PageCount(classCount, end)), 8, blocks, owners)
    ensures heap.Some? <==> |blocks| == classCount + 1 && forall k | 0 <= k < |left| :: Ordered(left[k])
    ensures var end := old(mmap[mmap.Length - 1].ptr + EntSize(mmap[mmap.Length - 1]));
            |blocks| <= classCount ==>
              NoRoom(left, Requests(classCount, RoundUpPages(end), PageCount(classCount, end))[|blocks|])
    ensures heap.Some? ==> heap.value.Valid() && heap.value.classCount == classCount
    ensures heap.Some? ==> heap.value.Usable() == heap.value.Free() && Collected(heap.value.Free(), left)
    ensures var last := old(mmap[mmap.Length - 1]);
            var end := last.ptr + (last.size - last.size % 16);
            heap.Some? ==>
              heap.value.pageCount % Pow2(classCount) == 0 &&
              end <= 4096 * heap.value.pageCount < end + 4096 * Pow2(classCount) &&
              4096 * (8 * blocks[0].bytes) >= end && 4096 * (8 * blocks[1].bytes) >= end &&
              forall i | 2 <= i <= classCount :: HasBits(blocks[i], heap.value.pageCount, i - 2)
    ensures heap.Some? ==>
              forall p: nat | p < heap.value.pageCount ::
                heap.value.Free()[p] <==> InUsable(old(mmap[..]), p) && !TouchesBlock(blocks, p)
    ensures heap.Some? && MapApart(old(mmap[..])) ==>
              forall p: nat | p < heap.value.pageCount && heap.value.Free()[p] :: !InReserved(old(mmap[..]), p)
  {
    ghost var s := mmap[..];
    ghost var last := mmap[mmap.Length - 1];
    ghost var end := last.ptr + EntSize(last);
    heap, left, blocks, owners := BuildFromLeft(mmap, classCount);
    if heap.Some? {
      PagesAdded(classCount, end);
      RoundUpLeast(end, 4096 * Pow2(classCount));
      PageCountIs(classCount, end);
      BitsReserved(classCount, end, Requests(classCount, RoundUpPages(end), PageCount(classCount, end)), blocks);
      GrantedIsGone(Stripped(Keep(s, true)), left, Requests(classCount, RoundUpPages(end), PageCount(classCount, end)), 8,
                    blocks, owners);
      forall p: nat | p < heap.value.pageCount
        ensures heap.value.Free()[p] <==> InUsable(s, p) && !TouchesBlock(blocks, p)
        ensures heap.value.Free()[p] && MapApart(s) ==> !InReserved(s, p)
      {
        LeftIffUsable(s, left, blocks, p);
        if MapApart(s) && InUsable(s, p) { UsableIsNotReserved(s, p); }
      }
    }
  }

  lemma PageCountIs(classCount: nat, end: nat)
    requires classCount >= 1 && end > 0
    ensures end <= 4096 * PageCount(classCount, end) < end + 4096 * Pow2(classCount)
  {
    var size := 4096 * Pow2(classCount);
    RoundUpLeast(end, size);
    BlockMultiple((end + size - 1) / size, Pow2(classCount), RoundUp(end, size));
  }

  /** end_page: the pages that the map's bytes touch. */
  function RoundUpPages(end: nat): (n: nat)
    ensures end > 0 ==> 0 < n && 4096 * n < end + 4096
  {
    RoundUpLeast(end, 4096);
    RoundUp(end, 4096) / 4096
  }

  lemma {:induction false} KeepAll(s: seq<MMapEnt>, free: bool)
    requires forall e | e in s :: IsFree(e) == free
    ensures Keep(s, free) == s && Keep(s, !free) == []
  {
    if s != [] { KeepAll(s[1..], free); }
  }

  lemma KeepBoth(x: seq<MMapEnt>, y: seq<MMapEnt>)
    requires forall e | e in x :: IsFree(e)
    requires forall e | e in y :: !IsFree(e)
    ensures Keep(x + y, true) == x && Keep(x + y, false) == y
  {
    KeepAll(x, true);
    KeepAll(y, false);
    KeepConcat(x, y, true);
    KeepConcat(x, y, false);
  }

  /** Sorting a sorted map changes nothing. */
  lemma FreeFirstTwice(s: seq<MMapEnt>)
    ensures FreeFirst(FreeFirst(s)) == FreeFirst(s) && Keep(FreeFirst(s), true) == Keep(s, true)
  {
    FreeFirstPartitions(s);
    KeepBoth(Keep(s, true), Keep(s, false));
  }
}
