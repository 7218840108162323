# Proofs about the dumboss kernel

This project models the stateful core of the dumboss kernel and proves what it keeps:

* **The buddy page allocator** (`kern/memory.c` over `lib/bitset.h`). The class `Heap` has the source's
  fields: a freelist head per size class, the block headers inside the pages (arrays `next`, `prev`,
  `cls`), one buddy bit set per class but the top one, the usable and free page sets, and the byte
  counter. `Heap.Valid()` says that the four views describe one set of free pages, and every operation
  keeps it. Behind it stands a canonical-form theorem (`FreeBlocks.TilesIffCanonical`): the lists hold
  exactly the maximal naturally aligned power-of-two runs of free pages.
* **The page tables** (`kern/page_tables.c`). The class `AddressSpace` holds the tables under one root;
  their pages come from the allocator. `PageTree` is the theory of the four-level tree as a value, and
  `PageByPage` compares map_region with mapping every page by itself.
* **The worker task queue** (`kern/multitasking.c`), as a transition system over any number of threads
  and workers, one action per atomic operation. `TaskScan` adds what one call does when it runs alone,
  `TaskCalls` that a whole call of add_task or of task_main's scan goes through all workers,
  `TaskFifo` in which order the tasks of one worker are handed over when calls follow one another,
  `TaskCounts` for which task_count that order always holds and no task is missed, and `TaskRuns` what a
  run publishes, how long one call lasts and what write_to - read_from tells.
* **The boot memory map** (`kern/memory.c`, `lib/macros.h`): how `memory__init` brings the allocator up.
* **The bump allocator and the formatter** (`lib/basics.h`).

The class count is a number K >= 1 (12 in the source) and the page count any multiple of 2^K. Pages are
numbered from physical address 0, and a page number stands for the pointer to the page. Machine words
are `u64`, naturals below 2^64 with the bitwise operators of the module `Bits`; wrap-around is written
out where the source's arithmetic can wrap. An `assert` of the source is a proof obligation, except
where the table says that a result reports it.

## Model

| member | source | states |
|---|---|---|
| `Bits.SmallestGreaterPower2Least` | `lib/basics.h:110-116` | the result is the least k with value <= 2^k |
| `Bits.XorIsOtherHalf` | `kern/memory.c:84-89` | the buddy of an aligned block is the other half of its aligned parent |
| `Bits.MaskTestsBit` | `lib/bitset.h:33-35` | masking with 1 << k tests bit k of the word |
| `BitSets.WordTest` | `lib/bitset.h:78-82` | comparing a word with all zeros or all ones decides all its 64 bits at once |
| `BitSets.CountWithRange` | `lib/bitset.h:38-61` | setting a range of equal bits changes the cardinality by exactly its length |
| `BitSets.BitSet.Get` | `lib/bitset.h:29-36` | reads one element of the abstract bool sequence |
| `BitSets.BitSet.Set` | `lib/bitset.h:113-124` | updates one element of the abstract bool sequence and no other |
| `BitSets.BitSet.GetCount` | `lib/bitset.h:38-61` | the word-parallel count is the cardinality of the range, aligned or not |
| `BitSets.BitSet.GetAll` | `lib/bitset.h:63-86` | true iff every bit of the range is set |
| `BitSets.BitSet.GetAny` | `lib/bitset.h:88-111` | true iff some bit of the range is set |
| `BitSets.BitSet.SetAll` | `lib/bitset.h:126-131` | every bit gets the value |
| `BitSets.BitSet.SetRange` | `lib/bitset.h:133-154` | exactly the bits of the range get the value, those outside are untouched |
| `FreelistLinks.PopLinks` | `kern/memory.c:258-272` | unlinking the head leaves a well-formed list of the rest; the assertions on the popped header hold |
| `FreelistLinks.RemoveLinks` | `kern/memory.c:274-299` | unlinking any member leaves a well-formed list of the others; a member without predecessor is the head |
| `FreelistLinks.AddLinks` | `kern/memory.c:301-314` | linking a new head gives a well-formed list with it in front |
| `FreeBlocks.TilesIffCanonical` | `kern/memory.c:404-457` | disjoint aligned blocks that cover the free pages without two free buddies are exactly the maximal aligned runs, and conversely: the block set is a function of the free page set |
| `FreeBlocks.MaximalDisjoint` | `kern/memory.c:404-457` | two different maximal blocks never overlap |
| `FreeBlocks.CoalesceRound` | `kern/memory.c:441-452` | what one round of the coalescing loop finds: indices in range, the pair bit set iff the buddy is in the list of the class |
| `FreeBlocks.MergedAt` | `kern/memory.c:451-453` | taking the buddy out and flipping the bit moves the boundary between filed and unfiled classes up by one |
| `FreeBlocks.FiledAt` | `kern/memory.c:446-449` | filing a block whose buddy is not free restores agreement of lists and bits with the larger free set |
| `FreeBlocks.SplitRound` | `kern/memory.c:405-416` | in every round of the split the pair bit read is in range and clear, so the assertion never fires |
| `FreeBlocks.TailBlocks` | `kern/memory.c:398-422` | after the first pages of a block are taken, the blocks in its place are one per binary digit of the rest, each at the position of its digit, and no others |
| `FreeBlocks.BlocksCountPages` | `kern/memory.c:316-336` | the blocks in the lists together have as many pages as are free |
| `Heaps.Heap.constructor` | `kern/memory.c:139-156` | the allocator before any page is usable satisfies the invariant and has no free page |
| `Heaps.Heap.PopFreelist` | `kern/memory.c:258-272` | removes the first block of a class; headers of pages in no such list are untouched |
| `Heaps.Heap.RemoveFromFreelist` | `kern/memory.c:274-299` | removes one block from the middle of its list and nothing else |
| `Heaps.Heap.AddToFreelist` | `kern/memory.c:301-314` | puts a block in front of the list of its class |
| `Heaps.Heap.ReleaseOne` | `kern/memory.c:436-457` | releasing one page, merging upwards, gives lists and bits for the free set with that page added |
| `Heaps.Heap.ReleasePages` | `kern/memory.c:427-461` | keeps the invariant; afterwards a page is free iff it was or is one of the given ones; the byte counter grows by 4096 bytes a page; touches the header of no page that is not free afterwards |
| `Heaps.Heap.FindClass` | `kern/memory.c:361-384` | complete search: grants the pages asked for iff some free aligned run of the classes has room for them, fails otherwise (exact) or iff nothing is free (inexact); picks the smallest class that fits |
| `Heaps.Heap.SplitTail` | `kern/memory.c:404-422` | the first pages of the popped block leave, the rest is re-filed in agreement with the free set |
| `Heaps.Heap.AllocRaw` | `kern/memory.c:357-425` | an exact request is met iff some free aligned run of the classes has room for it, an inexact one iff any page is free; with such a run the buffer has 4096 bytes for each page asked for, and comes from the front of a smallest block with room; without one it has fewer, as many as the longest aligned run; exactly its pages, all free before, leave the free set and the byte counter; the invariant holds; no page in use is written to |
| `FreeBlocks.GrantedIs` | `kern/memory.c:361-386` | the same about the number of pages as a function of the free ones |
| `Heaps.Heap.MarkUsability` | `kern/memory.c:463-475` | changes usability of exactly the given pages and keeps the invariant |
| `Heaps.Heap.ValidateHeap` | `kern/memory.c:316-339` | on any heap whose lists can be walked, succeeds iff every block is filed under its own class and the blocks are as large as the byte counter |
| `Heaps.Heap.ValidPasses` | `kern/memory.c:316-339` | the heap invariant makes it succeed |
| `AllocatorLaws.SameHeaps` | `kern/memory.c:258-461` | equal free pages mean the same blocks per class, the same buddy bits and the same byte count |
| `AllocatorLaws.SameFreeSameState` | `kern/memory.c:258-461` | the same statement about lists and bits as values |
| `AllocatorLaws.AllocThenRelease` | `kern/memory.c:357-461` | releasing exactly what was allocated restores blocks, bits and byte count, list order aside |
| `AllocatorLaws.ReleaseAll` | `kern/memory.c:427-461` | releasing ranges one after the other frees exactly their union |
| `AllocatorLaws.ReleaseConfluence` | `kern/memory.c:427-461` | the same pages released in any order and grouping leave the same blocks, bits and byte count |
| `AllocatorLaws.NoDoubleAllocation` | `kern/memory.c:349-461` | in every run a page is not handed out twice without a release between |
| `AllocatorLaws.Conservation` | `kern/memory.c:349-461` | in every run a page that was ever touched is free or live, never both; other pages keep their state |
| `FreeBlocks.LargestRunIsLargest` | `kern/memory.c:374-380` | the inexact fallback grants the largest aligned power-of-two run below the class |
| `FreeBlocks.NoRunIffNothingFree` | `kern/memory.c:374-383` | the inexact fallback fails iff no page is free |
| `AllocatorLaws.FallbackIsLongest` | `kern/memory.c:57-61` | an inexact request that cannot be met gets the largest contiguous number of free pages iff that number is a power of two below the class asked for and some free run of that size is naturally aligned, or nothing is free |
| `AllocatorLaws.UnalignedRunIsNotFound` | `kern/memory.c:57-61` | a concrete free set on which it gets less |
| `AllocatorLaws.ServedIffLong` | `kern/memory.c:57-61` | a contiguous free run of n pages guarantees an exact request iff n >= 2^(k+1) - 1 for its class k, and k is below the class count |
| `PageEncoding.MaskIsFrame` | `kern/page_tables.c:58-62` | the address mask selects the page number of an entry |
| `PageEncoding.PteRoundTrip` | `kern/page_tables.c:51-65` | flags are recoverable; decoding gives the pointer back iff there is a flag or the page is not the first of memory |
| `PageEncoding.SplitThenJoin` | `kern/page_tables.c:38-77` | joining the indices of a page-aligned address gives it back iff the address is canonical |
| `PageEncoding.JoinThenSplit` | `kern/page_tables.c:38-77` | splitting the address joined from any four indices gives them back |
| `PageEncoding.IndexDigits` | `kern/page_tables.c:38-49` | the four indices are the base-512 digits of the page number |
| `PageTree.PathUnique` | `kern/page_tables.c:129-143` | in a tree of tables, two addresses reach the same table only if they agree on the indices used so far |
| `PageTree.AddedTableLookup` | `kern/page_tables.c:180-202` | a zeroed table linked into an empty entry changes no translation |
| `PageTree.LeafLookup` | `kern/page_tables.c:204-205` | a leaf written into an empty entry translates exactly the walks through it |
| `PageTree.HugeLeafMaps` | `kern/page_tables.c:234-235` | a 2MB leaf maps exactly its 512 pages |
| `PageTree.SmallLeafMaps` | `kern/page_tables.c:204-205` | a 4KB leaf maps exactly one page |
| `PageByPage.MapPages` | `kern/page_tables.c:172-208` | mapping a range one page at a time maps exactly a prefix of it, all of it on success; a failure stops at a page that was mapped before or for lack of a free page |
| `PageByPage.MapBothWays` | `kern/page_tables.c:156-167` | on tables that translated alike, map_region and mapping page by page leave them translating alike if both succeed; where a page is free, page by page never fails alone, and map_region fails alone only at a page where it calls for a 2MB page and a table stood |
| `PageTree.MappedAlike` | `kern/page_tables.c:156-167` | the same about the tables as values |
| `PageTree.OccupiedBefore` | `kern/page_tables.c:156-167` | mapping the pages in front of a 2MB boundary puts no table behind it |
| `PageTree.BranchStep` | `kern/page_tables.c:269-273` | the subtrees behind different entries of a table are disjoint, and entry by entry they make up what lies below it |
| `PageTables.AddressSpace.constructor` | `kern/memory.c:179-180` | a zeroed page is a root that maps nothing |
| `PageTables.AddressSpace.MapPage` | `kern/page_tables.c:172-208` | success maps exactly one unmapped page; failure changes no translation and has one of three causes; entries are only filled in, with the given flags; tables stay a tree of distinct allocated pages |
| `PageTables.AddressSpace.Map2MBPage` | `kern/page_tables.c:210-238` | the same for 512 pages; only the leaf may carry the huge-page bit besides the flags |
| `PageTables.AddressSpace.MapRegion` | `kern/page_tables.c:148-170` | success maps exactly the range; failure leaves a mapped prefix, and its next page was mapped before the call, or calls for a 2MB page where a table or page stood before the call, or no page is free; 2MB pages are used exactly where both addresses are aligned and enough is left; new tables serve pages of the range; misaligned addresses change nothing; no entry is overwritten and new ones carry the flags; free pages plus tables are conserved |
| `PageTables.WithHugeBits` | `kern/page_tables.c:234-235` | the flags of new entries differ from the given ones in no bit but that of huge pages |
| `PageTree.BlockIs` | `kern/page_tables.c:156-158` | where a region calls for a 2MB page, in terms of the page numbers |
| `PageTables.ZeroedPage` | `kern/memory.c:341-347` | a one-page request fails iff no page is free, and takes exactly one free page, whose 512 entries are zero |
| `PageQueries.Translate` | `kern/page_tables.c:123-145` | the walk computes the abstract translation, including its value for missing leaves |
| `PageQueries.WalkIs` | `kern/page_tables.c:123-145` | the translation entry by entry, in bits of the address: bits 39 to 47 choose the entry of the root, then 30, 21 and 12 on; bit 7 of the third entry ends the walk at a 2MB page, and an empty entry ends it with nothing |
| `PageQueries.NullMeansUnmapped` | `kern/page_tables.c:143-144` | null means unmapped in every tree of tables iff the address is page aligned |
| `PageQueries.NullInTree` | `kern/page_tables.c:143-144` | in one tree, an unmapped address that is not page aligned gives null iff no last-level table covers it |
| `PageQueries.UnmappedIsNotNull` | `kern/page_tables.c:143-144` | for every address there is a well-formed tree in which it is unmapped and translates to its offset |
| `PageQueries.RegionTranslates` | `kern/page_tables.c:123-170` | after map_region every byte d of the range translates to kernel + d |
| `PageQueries.OthersTranslateAsBefore` | `kern/page_tables.c:123-170` | all other page-aligned addresses translate as before |
| `PageQueries.RegionSize` | `kern/page_tables.c:112-121` | ends on every tree and for every address, aligned or not, and returns the greatest number of page steps for which translate gives consecutive non-null pointers |
| `PageQueries.SizeIsRegion` | `kern/page_tables.c:112-121` | for a page-aligned address that number is the length of the physically contiguous mapped range, and 0 iff the first page is unmapped |
| `PageQueries.CopyMapping` | `kern/page_tables.c:93-110` | success only for a contiguous source, and then both sides translate all pages alike and nothing else changed; a contiguous copy fails only at address 0 or for one of map_region's causes, in terms of the destination before the call |
| `PageTeardown.DestroyInner` | `kern/page_tables.c:264-276` | removes exactly the tables of the subtree, each released once; leaves are not touched |
| `PageTeardown.DestroyTable` | `kern/page_tables.c:260-262` | afterwards a page is free iff it was or held a table |
| `PageTeardown.DestroyBootbootTable` | `kern/page_tables.c:240-257` | afterwards a page is usable, and free, iff it was or held a table of the boot loader's |
| `PageTeardown.AccountedSafe` | `kern/page_tables.c:148-170` | after any calls of map_region, a further region that is clear of theirs can be asked for |
| `PageTeardown.ClearIsExact` | `kern/page_tables.c:148-170` | after one region is mapped where nothing was, a second one takes no 2MB page for a table iff it is clear: it calls for each 2MB page that it touches too, or both have a page in front of it |
| `PageTeardown.RepetitionIsClear` | `kern/page_tables.c:148-170` | a region at the same addresses is clear whatever its length, unless it ends inside a 2MB page with which the first starts |
| `PageTeardown.BuildAndDestroy` | `kern/page_tables.c:148-276` | a root, any successful or failed map_region calls, with flags of their own, repeated, shortened and overlapping ones included, and destroy_table leave the allocator's free set as it was |
| `TaskQueue.InvNext` | `kern/multitasking.c:142-198` | every atomic step of every thread keeps the invariant |
| `TaskQueue.ExactlyOnce` | `kern/multitasking.c:142-198` | in every interleaving ids are distinct, and a published task is taken once or held by one slot, with its id and data |
| `TaskQueue.MutualExclusion` | `kern/multitasking.c:152-159` | a slot in Writing or Reading has at most one thread inside |
| `TaskQueue.SlotProtocol` | `kern/multitasking.c:150-193` | slots move only Empty, Writing, Queued, Reading, Empty, and only their owner changes them |
| `TaskQueue.NoOrphansEver` | `kern/multitasking.c:150-193` | a slot in Writing or Reading always has a thread inside |
| `TaskQueue.PublishedWasRequested` | `kern/multitasking.c:71-77` | nothing is published that no caller asked to add |
| `TaskRuns.PublishedAtMostAsked` | `kern/multitasking.c:71-77` | in every interleaving the same data is published, or on its way to be, at most as often as callers asked to add it |
| `TaskRuns.SuccessIsPublication` | `kern/multitasking.c:181-197` | a call that returns true has published its task once, in its last step, and no other step publishes |
| `TaskQueue.RingWindow` | `kern/multitasking.c:143-191` | both indices only grow and 0 <= write_to - read_from <= task_count, although snapshots are stale |
| `TaskQueue.BoundedCompletion` | `kern/multitasking.c:71-191` | a call ends within workers * (4 * task_count + 10) own steps, whatever the others do |
| `TaskRuns.OneCallIsBounded` | `kern/multitasking.c:142-198` | one enqueue_task or dequeue_task call ends within 4 * task_count + 10 own steps, whatever the others do |
| `TaskQueue.StepsAreCounted` | `kern/multitasking.c:161-163` | every step of a call is counted, failed weak compare-exchanges that see the expected value aside |
| `TaskRuns.BacklogStep` | `kern/multitasking.c:23-24` | for each worker, write_to - read_from stays the amount queued over exactly the steps that neither publish there, hand over from there, nor move its indices |
| `TaskRuns.DriftStep` | `kern/multitasking.c:23-24` | how every step changes the difference between the two at each worker |
| `TaskRuns.AmountOfRun` | `kern/multitasking.c:23-24` | for each worker, they agree throughout a run iff no step counts, and at its end iff the counted steps balance |
| `TaskRuns.AmountIsWrong` | `kern/multitasking.c:23-24` | after a single add_task a task is queued and write_to - read_from is 0, for every task_count |
| `TaskScan.EnqueueAlone` | `kern/multitasking.c:171-198` | without interference the task goes into the first empty slot from write_to on, up to task_count behind read_from, with the next id; failure iff there is none; write_to stays at a first hit, ends one behind a later one and at the bound without one; nothing else changes |
| `TaskCalls.AddAlone` | `kern/multitasking.c:71-77` | a whole add_task without interference: the task goes, with the next id, into the first empty slot of the first worker that has one; it fails iff no worker has one |
| `TaskScan.DequeueAlone` | `kern/multitasking.c:142-169` | without interference the first queued task from read_from on, below write_to, is returned with its id and data and its slot emptied; nothing iff there is none; read_from ends as write_to does above; nothing else changes |
| `TaskCalls.ScanAlone` | `kern/multitasking.c:113-117` | a whole scan of task_main without interference: it returns the first queued task of the first worker, from its own one on in cyclic order, that has one; nothing iff no worker has one |
| `TaskCalls.EveryWorkerLookedAt` | `kern/multitasking.c:71-198` | in every interleaving, a scan that ends with nothing has looked at a slot of every worker while no task was queued in it, and an add_task that fails at one that was not empty |
| `TaskFifo.CallsRefine` | `kern/multitasking.c:142-198` | every sequence of calls on one worker, by any threads, is a run of the transition system and does what the sequential worker does |
| `TaskFifo.AddKeepsOrder` | `kern/multitasking.c:171-198` | an enqueue_task keeps hand-over first in, first out iff the slot it finds is below read_from + task_count, or nothing else is queued, or it fails |
| `TaskFifo.TakeTidy` | `kern/multitasking.c:142-169` | a dequeue_task neither breaks nor mends the order |
| `TaskFifo.HandOverOrder` | `kern/multitasking.c:142-198` | after any sequence of calls, the published tasks are those handed over followed by those queued, in this order, iff every enqueue_task in it met that condition |
| `TaskFifo.DrainInOrder` | `kern/multitasking.c:142-169` | at most one more dequeue_task than there are queued tasks empties the worker, and hands over in the order of publication iff the state is first in, first out |
| `TaskFifo.NewestFirst` | `kern/multitasking.c:171-198` | when the condition fails, the next dequeue_task hands over the newest task ahead of those that wait |
| `TaskCounts.OutOfOrderRun` | `kern/multitasking.c:142-198` | for every task_count, a run of one thread: fill the slots, fail once, take one, add z, take; z is handed over second |
| `TaskCounts.OrderedWithOneSlot` | `kern/multitasking.c:142-198` | all sequences of calls hand over first in, first out iff task_count is 1 |
| `TaskFifo.MissedAtWriteTo` | `kern/multitasking.c:161-165` | a dequeue_task returns nothing although a task is queued iff the task is in the slot of write_to, read_from < write_to < read_from + task_count, and the slots from read_from to it are empty |
| `TaskFifo.FoundNext` | `kern/multitasking.c:161-165` | the next dequeue_task finds the task that was missed |
| `TaskCounts.MissedRun` | `kern/multitasking.c:161-165` | for every odd task_count from 3 on, a run of one thread after which the next dequeue_task misses a task |
| `TaskCounts.DenseEver` | `kern/multitasking.c:142-198` | after any sequence of calls the slots strictly between the indices hold tasks and those behind write_to none, and both indices are even if task_count is |
| `TaskCounts.MissesOnlyWithOddCount` | `kern/multitasking.c:161-165` | no sequence of calls leads to a dequeue_task that misses a queued task iff task_count is even or 1 |
| `BootMemory.SortFreeFirst` | `lib/macros.h:139-145` | the bubble pass with the swap of memory__init is the stable partition that puts the entries of type 1 first; nothing is lost |
| `BootMemory.FreeFirstPartitions` | `kern/memory.c:118-122` | the partition is a permutation whose parts hold the free and the other entries |
| `BootMemory.StripFree` | `kern/memory.c:124-132` | exactly the entries of type 1 remain, in order and without their type bits; the others are untouched |
| `BootMemory.RoomComputed` | `kern/memory.c:234-236` | the size computed behind the alignment is right iff the padding does not exceed the entry |
| `BootMemory.RoomyEntries` | `kern/memory.c:131-236` | for the alignment of the bit sets it is right for every entry with its type bits removed, unless the entry is empty and misaligned |
| `BootMemory.PaddingWraps` | `kern/memory.c:234-236` | such an entry, for which it wraps to almost 2^64 |
| `BootMemory.AllocFromEntries` | `kern/memory.c:227-244` | first fit: the first entry with room gives up a block at its first aligned address, of the least aligned size that holds the bytes, and keeps all behind it; no result stands for the failing assertion |
| `BootMemory.GrantedIsGone` | `kern/memory.c:227-244` | blocks granted by successive calls are disjoint from everything that remains, and what remains is still disjoint |
| `BootMemory.TakeStorage` | `kern/memory.c:143-156` | successive calls grant aligned, pairwise disjoint blocks out of what the entries lose |
| `BootMemory.ReleaseEntries` | `kern/memory.c:158-172` | afterwards free pages, usable pages and whole pages inside the entries are the same set and the byte counter agrees; stops early iff some entry's last page number is below its first |
| `BootMemory.OrderedHasBoundary` | `kern/memory.c:160-168` | that is, iff no page boundary lies in the entry or at its ends |
| `BootMemory.NoBoundary` | `kern/memory.c:160-168` | sixteen bytes inside a page are such an entry |
| `BootMemory.PageBitsFit` | `kern/memory.c:140-149` | the storage reserved for a page bit set holds the bits that are used iff rounding up to whole blocks adds fewer than 64 pages |
| `BootMemory.PageBitsOverrun` | `kern/memory.c:140-149` | with the twelve classes and one page of memory 64 bits are reserved and 4096 used |
| `BootMemory.BuildAllocator` | `kern/memory.c:103-173` | it succeeds iff all bit sets find storage and every entry left holds a page boundary; if one finds none, no entry has room for it; then the invariant holds, a page is free, and usable, iff it lies inside an entry of type 1 of the original map and no block of storage touches it, and no byte of it belongs to an entry of another type unless entries overlap; the blocks have a bit for every page, and for every pair of blocks of each class |
| `BumpAllocator.RunKeeps` | `lib/basics.h:98-108` | over every run the invariant holds, the index never moves back and no grant is taken away |
| `BumpAllocator.AttemptGrants` | `lib/basics.h:98-108` | an attempt succeeds iff the bytes asked for fit at the first multiple of the alignment behind the index seen, and the index is still that; the caller gets exactly those bytes, and the index goes to their end |
| `BumpAllocator.GrantsAnswer` | `lib/basics.h:98-108` | in every interleaving each block answers a request of its caller, for its size and alignment, and requests are answered at most as often as made |
| `BumpAllocator.GrantsDisjoint` | `lib/basics.h:98-108` | in every interleaving all blocks have the size and alignment their callers asked for, are in bounds, pairwise disjoint, and together fit in what is used |
| `BumpAllocator.NullMeansFull` | `lib/basics.h:101-103` | a null result is final: the request does not fit now nor later, stale view or not |
| `BumpAllocator.RetryMeansProgress` | `lib/basics.h:106-107` | a compare-exchange that fails without being spurious lost to another caller: the last block handed out is that caller's and ends behind what this one had seen |
| `Formatter.Fmt` | `lib/basics.h:207-244` | the text written shows, item by item, what the format asks for up to some position; the buffer holds its prefix and nothing outside changes; success, with the text's length, iff that is the whole format with one printable argument per %f; a failure tells the argument at which it stopped, and why it stopped there |
| `Formatter.RenderExplained` | `lib/basics.h:212-243` | the same about the unlimited rendering as a value |
| `Formatter.FormatIsParsed` | `lib/basics.h:212-243` | a format written for a list of literals and holes is read back as that list |
| `Formatter.RenderFills` | `lib/basics.h:212-243` | formatting succeeds iff the format is well formed with one printable argument per %f, and renders literals and arguments in order |
| `Formatter.FmtAny` | `lib/basics.h:158-202` | where it fits: a number's decimal numeral, which parses back to it without a leading zero; true or false; a character; a string; nothing for a null string; otherwise the prefix that fits, and the full length returned |
| `Formatter.NumeralParses` | `lib/basics.h:292-298` | a rendered number parses back to its value, has no leading zero, and has a sign iff it is negative |
| `Formatter.DigitLoop` | `lib/basics.h:483-500` | the digits are the decimal numeral in reverse; at most 20 of the 32 places are used |
| `Formatter.OutRev` | `lib/basics.h:406-430` | writes the digits in reverse, truncated |
| `Formatter.StrcpyS` | `lib/basics.h:320-328` | copies the part of the string that fits and returns its length |

## Left out

- Heaps.Heap.AllocRaw: asks that `count` is at most 2^K, because the class search stops on equality only (`lib/macros.h:112`) and would run past the table otherwise.
- Heaps.Heap.ReleasePages: takes a page number and asks that the pages exist, are usable and not free, as the source asserts; alignment of the pointer is in the page number.
- PageTables.AddressSpace.MapPage: asks that no 2MB page covers the address, because the walk does not test for one (`kern/page_tables.c:196`).
- PageTables.AddressSpace.MapRegion: asks that a 2MB page covers a page of the range only where the region calls for a 2MB page too, or behind a page that is already mapped (elsewhere the walk would take it for a table, `kern/page_tables.c:196`), that the range stays below the end of the 48-bit space and of the kernel window, and that flags leave the address and huge-page bits alone and are not zero; `kern/include/page_tables.h:33-35` has such flags.
- PageQueries.CopyMapping: leaves out the case that a source region shorter than the copy starts with a 2MB page and fewer than 512 pages are left behind it, where the next call, at the same address, would take that page for a table.
- PageTeardown.BuildAndDestroy: each region is clear of every earlier one (`ClearIsExact`); otherwise map_region may take a 2MB page for a table.
- PageByPage.MapBothWays: asks that no page of the range is covered by a 2MB page in the tables that are mapped page by page.
- BootMemory.TakeStorage: the allocations of the bit sets are modelled as one sequence of calls before the sets are made.
- BootMemory.BuildAllocator: each page bit set gets an array of its full length, where the source reserves `end_page` bits and uses `buddy_end_page` (`PageBitsFit` says when that is enough); asks that free entries are disjoint, end no later than the last entry and are not both empty and misaligned, as the boot loader's map is.
- TaskFifo.HandOverOrder: one worker, calls that do not overlap and compare-exchanges that do not fail spuriously.
- TaskQueue.InvNext: ids and indices are unbounded; their overflow after 2^63 tasks is not modelled. Atomic operations are sequentially consistent, as in the source.
- BumpAllocator.GrantsDisjoint: the additions do not wrap.
- Formatter.DigitLoop: base 10 without flags, width and precision, the only way the callers use it.
- Formatter.Fmt: strings are sequences without their terminator, so strings longer than 2^63 bytes do not arise.
- `destroy_table_inner` and `destroy_bb_table_inner` are the same walk; the model has one, with a flag for marking the page usable first.
- `traverse_table`, all logging, and the list dump inside `remove_from_freelist`: diagnostics.
- `zeroed_pages` clears its pages; the model has the contents of a page only where it becomes a table.
- `memory__init` after the release loop: mapping the kernel with the functions modelled here and switching tables.
- `task_main` beyond its scan of the workers, which does not run tasks yet, and how a worker finds its own index.
- C integer widths of counts and classes below 2^63, and pointer arithmetic, which page numbers replace.
- Access permissions, TLB behaviour and 1GB pages: the code does not decide them.
- Interrupt and descriptor tables, registers, serial output, the logging mutex and floating-point formatting.
