# gzOS memory stack, verified model

A Dafny model of the parts of the gzOS kernel (MIPS Malta) that manage memory, and of four
self-contained algorithms beside them. State that the kernel updates in place is a class; each
method is proved against a step or a function on values, and the properties are proved about
those values, over all inputs, all runs and all reachable states.

| files | what they model |
|---|---|
| `Dyadic`, `BuddyBlocks`, `SegInit`, `PhysMem` | the buddy allocator of physical frames |
| `HeapBlocks`, `Heap`, `HeapPool`, `HeapRuns` | the first-fit heap, its pools, aligned allocation, runs |
| `HashTable`, `HashMap` | the open-addressing hash table with bounded probing |
| `Pmap`, `Mmu` | the two-level page table, and the TLB that all spaces share |
| `VmMap`, `VmObject` | the entry list of an address space, the page list of an object |
| `Held`, `VmSpace`, `Vm` | address spaces over frames: faults, clone, delete |
| `Checksum`, `Clock`, `Cpio` | Internet checksum, core timer, initrd extractor |
| `Basics` | shared notions |

## How the model is built

**Buddy allocator.** A segment is its queues together with, for every frame, the block the frame
belongs to. `Tiled` says that every frame is reserved or in exactly one aligned block and that
the queues are exactly the free blocks; `Coalesced` says that no two buddies are free. Allocation
is taking a block and halving it in hand, freeing is merging it in hand and queueing it, step by
step inverse to each other. `PhysMem.Segment` keeps page descriptors and queues and couples them
to these values; `PM_MANAGED` marks exactly the heads of queued blocks.

**Heap.** An arena is the list of blocks that tile it. The headers in memory and the sorted free
list are proved to follow it through insertion, both merges, cutting and first fit. A pool adds
the half-words before payloads by which `kfree` tells aligned pointers from plain ones.

**Hash table.** `Represents` says that a slot array holds a finite map. The hash function is any
function, and memory for a new array is there up to any bound.

**Page table and TLB.** Page-table words are 32-bit vectors. `Mmu` has the tables of all spaces and
one TLB, whose entries are tagged with an ASID and are loaded for two pages, or for two fragments in
the window through which the kernel sees its page tables. Refills and replacements come at any time
and from any table. A store and a refill are taken to reach the space's own table; `Mmu.WindowIff`
says when the window leads elsewhere.

**Address spaces.** `VmSpace` records for every frame taken since the start the one place that holds
it; `Vm.Vm` does the kernel's operations on a real `PhysMem.Segment` and keeps ownership and the
agreement of page tables with objects. Addresses are page numbers, frame numbers are indices into the
one segment of the machine, which starts at physical address 0, and a space is named by its ASID.

## Where the code does not do what is expected of it

Each of these has its exact condition in the model.

- `SegInit.SoundIffPowerOfTwo`: `pm_seg_init` is right only for 2^k pages, k at most 15.
- `BuddyBlocks.ReservePromise`: `physmem.h` promises that pages of a reserved range are never
  allocated; frames handed out before the call come back when they are freed.
- `HashTable.PutAtFound`, `HashMap.StaleCopy`: after a removal a put can store a second copy of a
  key, and the first value comes back when the second is removed.
- `HashMap.HashMap.Put`, `HashMap.CountsTwice`: overwriting a key counts it again.
- `HashMap.HashMap.Rehash`, `HashMap.LosesEntry`: when a nested allocation fails, entries not yet put
  back are lost.
- `Checksum.TcpUdpIffNoOverflow`, `Checksum.OverflowExample`: the 32-bit accumulator overflows for
  common addresses, and then the checksum is not that of the standard.
- `HeapPool.RecoveryIff`: the 16-bit offset is cut off for alignments above 65536.
- `HeapPool.WantedIsEnough`, `HeapPool.WrappedRequest`: sizes within 23 bytes of 2^32 wrap.
- `Clock.RightIff`: an interrupt more than 2^31 ticks late is not taken as late, or, when its
  lateness modulo 2^32 is small again, loses whole wraps of the counter.
- `Cpio.ForeverIff`, `Cpio.LoopsForever`: the 32-bit next position can lead back to a header that was
  visited before.
- `Cpio.DirectoryBitTypes`: one bit of the file type is tested.
- `VmMap.CmpRight`: the comparator is wrong for addresses 2^31 or more apart.
- `VmMap.Entries.FindSpace`, `VmMap.FullSpaceOverflows`: a sum that overflows makes a full space look
  free.
- `Pmap.RangeCheckIff`: the mapped-range check looks at one page in 1024, and never passes for a range
  that reaches the last 1024 pages.
- `Mmu.MismatchIff`, `Mmu.TwoSpaces`: fresh user page-table words carry the global bit, so a TLB entry
  of one address space can answer in another, and `pmap_probe` panics.
- `Mmu.WindowIff`, `Mmu.TwoWindows`: directory entries carry it too, so one space can reach the page
  table of another through the window.
- `Mmu.SeenIffSafe`, `Mmu.ClearedUnsafe`: a page of the kernel that is unmapped and mapped again can stay
  unmapped in the TLB for a process that ran in between.
- `Mmu.ProtectMapsNoneIff`: changing the protection of a page that is not mapped maps it, to frame 0 if it
  was never touched.
- `Vm.Vm.PageFault`: a fault on a page that is mapped already makes `pmap_map` panic.
- `Vm.Vm.Clone`: a map with a page present in an entry that does not allow writing cannot be cloned.

## Model

| member | source | states |
|---|---|---|
| `Dyadic.BuddyFacts` | kernel/lib/mm/physmem.c:138-162 | the buddy relation is an involution on aligned blocks, and two buddies are the halves of one block of twice the size |
| `Dyadic.AlignedIsMod` | kernel/lib/mm/physmem.c:138-162 | alignment by halving is divisibility by the block size, the test that picks the buddy above or below |
| `BuddyBlocks.TakeKeeps` | kernel/lib/mm/physmem.c:225-255 | handing out a free block keeps the tiling and the coalesced form |
| `BuddyBlocks.ReleaseKeeps` | kernel/lib/mm/physmem.c:273-302 | queueing a block keeps the tiling, and the coalesced form if its buddy is not free |
| `BuddyBlocks.SplitHandKeeps` | kernel/lib/mm/physmem.c:225-255 | halving the block being allocated keeps tiling and coalesced form |
| `BuddyBlocks.MergeHandKeeps` | kernel/lib/mm/physmem.c:126-136 | joining the block being freed with its free buddy keeps tiling and coalesced form, and the result is a block of the next order inside the segment |
| `BuddyBlocks.SplitFreeKeeps` | kernel/lib/mm/physmem.c:164-182 | splitting a free block in the queues keeps the tiling and yields two free blocks |
| `BuddyBlocks.SplitAllocKeeps` | kernel/lib/mm/physmem.c:320-333 | splitting an allocated block keeps the whole invariant and yields two allocated blocks |
| `BuddyBlocks.FirstQueue` | kernel/lib/mm/physmem.c:225-255 | the queue found is the lowest non-empty one at or above the order asked for, or there is none |
| `BuddyBlocks.RunInOneBlock` | kernel/lib/mm/physmem.c:225-255 | in coalesced form every aligned run of 2^j free frames lies in a single free block of order at least j |
| `BuddyBlocks.AllocComplete` | kernel/lib/mm/physmem.c:225-255 | an allocation of 2^j frames fails exactly when no aligned run of 2^j free frames exists |
| `BuddyBlocks.AllocBestFit` | kernel/lib/mm/physmem.c:225-255 | the frames handed out are the upper end of a free block of the least order that suffices, and of that order the first in its queue |
| `BuddyBlocks.AllocKeeps` | kernel/lib/mm/physmem.c:225-255 | an allocation keeps the invariant, returns the head of an allocated block of the order asked for, takes exactly its frames from the free ones and changes the owner of no other frame that was not free |
| `BuddyBlocks.FreeKeeps` | kernel/lib/mm/physmem.c:273-302 | freeing keeps the invariant and makes exactly the frames of the block free, however many merges happen |
| `BuddyBlocks.MergeUndoesCarve` | kernel/lib/mm/physmem.c:164-302 | merging upwards from the block carved out of a larger one gives what merging from the larger one gives |
| `BuddyBlocks.FreeUndoesAlloc` | kernel/lib/mm/physmem.c:225-302 | a free right after an allocation restores the segment exactly, every queue in its order included |
| `BuddyBlocks.FreeBlocksDetermined` | kernel/lib/mm/physmem.c:138-302 | canonical form: two coalesced segments with the same free frames have the same free blocks in the same queues |
| `BuddyBlocks.SeizeStep` | kernel/lib/mm/physmem.c:185-223 | taking a block inside the range off its queue keeps the reservation invariant |
| `BuddyBlocks.SplitStep` | kernel/lib/mm/physmem.c:185-223 | splitting a block across a bound of the range keeps the reservation invariant: free frames stay free and coalescing fails at most around the range |
| `BuddyBlocks.SweptAll` | kernel/lib/mm/physmem.c:185-223 | when no queued block overlaps the range any more, exactly the free frames of the range are reserved and the segment is fully coalesced |
| `BuddyBlocks.StepKeeps` | kernel/lib/mm/physmem.c:185-333 | every single call of alloc, free, split_alloc or reserve keeps the invariant and every reservation |
| `BuddyBlocks.RunKeeps` | kernel/lib/mm/physmem.c:82-333 | over every run of these calls each state is tiled and coalesced, a reserved frame stays reserved, and no call ever hands it out |
| `BuddyBlocks.FreeFrameIsReachable` | kernel/lib/mm/physmem.c:225-255 | for every free frame there is a run that hands it out |
| `BuddyBlocks.ReservePromise` | kernel/lib/mm/physmem.h:55-58 | the promise that pages of a reserved range are never allocated again holds exactly when no frame of the range was handed out at the time of the call |
| `SegInit.FirstBlock` | kernel/lib/mm/physmem.c:106-117 | page 0 goes to the queue of the greatest power of two that fits, and so does the next block if it fits again |
| `SegInit.SoundIffPowerOfTwo` | kernel/lib/mm/physmem.c:82-119 | the sizes and queues written at initialisation agree, with no free buddies, exactly when the number of pages is a power of two of at most 2^15 |
| `SegInit.InitialInv` | kernel/lib/mm/physmem.c:82-119 | the initial segment of such a size is tiled and coalesced |
| `PhysMem.Segment.constructor` | kernel/lib/mm/physmem.c:82-119 | the descriptors and queues built are the initial segment, and descriptors agree with it |
| `PhysMem.Segment.InitTables` | kernel/lib/mm/physmem.c:90-118 | for any number of pages: the queues and, page by page, size and PM_MANAGED that the two loops write |
| `PhysMem.Segment.FindBuddy` | kernel/lib/mm/physmem.c:138-162 | the buddy is found exactly when it heads a free block of the same order, else none is |
| `PhysMem.Segment.SplitPage` | kernel/lib/mm/physmem.c:164-182 | refines the split step: descriptors and queues, upper half first in its queue |
| `PhysMem.Segment.AllocFromSeg` | kernel/lib/mm/physmem.c:225-255 | refines the allocation on values: same result, same queues, flags set on every frame of the block; NULL exactly when there is no aligned run of that many free frames, and it leaves all as it was; otherwise the upper end of the first block of the least queue that suffices |
| `PhysMem.Segment.SplitDown` | kernel/lib/mm/physmem.c:236-255 | the splitting loop ends with the carved block at the head of the wanted queue |
| `PhysMem.Segment.TakeFirst` | kernel/lib/mm/physmem.c:239-249 | unlinks the head of a queue and flags all its frames |
| `PhysMem.Segment.FreeFromSeg` | kernel/lib/mm/physmem.c:273-302 | panics exactly when the page is not allocated, and otherwise refines the free on values |
| `PhysMem.Segment.MergeLoop` | kernel/lib/mm/physmem.c:282-301 | the merge loop refines merging upwards until the buddy is not free |
| `PhysMem.Segment.MergeBuddies` | kernel/lib/mm/physmem.c:126-136 | returns the lower page with twice the size and touches no other descriptor |
| `PhysMem.Segment.Reserve` | kernel/lib/mm/physmem.c:185-223 | the loop terminates, no free block overlaps the range, free frames outside stay free, nothing else changes, the segment is coalesced again |
| `PhysMem.Segment.SplitAllocPage` | kernel/lib/mm/physmem.c:320-333 | refines the split of an allocated block and returns its upper half |
| `PhysMem.Segment.Hash` | kernel/lib/mm/physmem.c:340-354 | the hash is the fold of all queues in order in 32-bit arithmetic |
| `PhysMem.HashOfTwo` | kernel/lib/mm/physmem.c:340-354 | the hash of a queue of two blocks as a number: times 33 plus the address, twice, modulo 2^32 |
| `PhysMem.Segment.AllocThenFree` | kernel/lib/mm/physmem.c:225-354 | an allocation undone at once leaves segment and hash as they were |
| `HeapBlocks.AllocateGood` | kernel/lib/malloc/malloc.c:150-180 | allocation keeps sizes positive and multiples of eight, the total size, and that no two neighbours are free |
| `HeapBlocks.AllocateLive` | kernel/lib/malloc/malloc.c:160-180 | allocation adds exactly the block found to the blocks in use, with at least the size asked for |
| `HeapBlocks.FitsIff` | kernel/lib/malloc/malloc.c:150-158 | a request fits exactly when some free block has at least the wanted size |
| `HeapBlocks.FirstFitLowest` | kernel/lib/malloc/malloc.c:150-180 | the block that serves it is the free block of lowest address that is large enough |
| `HeapBlocks.AllocateServes` | kernel/lib/malloc/malloc.c:160-180 | allocation puts that block in use, whole or, if more than 16 bytes would be left, cut to the request with the rest free; no other block changes |
| `HeapPool.ErasedIs` | kernel/lib/malloc/malloc.c:160-180 | a block header written at an address takes exactly the tags under its 16 bytes with it |
| `HeapBlocks.ReleaseGood` | kernel/lib/malloc/malloc.c:70-112 | freeing keeps the total size and leaves no two free neighbours |
| `HeapBlocks.ReleaseLive` | kernel/lib/malloc/malloc.c:83-112 | freeing removes exactly the freed block from the blocks in use |
| `HeapBlocks.LiveDetermines` | kernel/lib/malloc/malloc.c:70-180 | canonical form: the blocks in use determine the whole arena |
| `HeapBlocks.LiveDisjoint` | kernel/lib/malloc/malloc.c:160-239 | blocks in use never overlap, headers included |
| `HeapBlocks.RunKeeps` | kernel/lib/malloc/malloc.c:160-239 | over every run of allocations and frees the arena stays tiled to its end and coalesced |
| `HeapBlocks.RunRestores` | kernel/lib/malloc/malloc.c:160-239 | two states of a run with the same blocks in use are the same arena, so freeing allocations in any order restores the free list before them |
| `Heap.AddedReleases` | kernel/lib/malloc/malloc.c:83-112 | sorted insertion with both merges on list and headers is the release on blocks |
| `Heap.TakenAllocates` | kernel/lib/malloc/malloc.c:160-180 | unlinking, cutting and returning the rest on list and headers is the first-fit allocation on blocks |
| `Heap.FindAgrees` | kernel/lib/malloc/malloc.c:150-158 | the list scan stops at the first free block that fits, or at the end exactly when none does |
| `Heap.Arena.constructor` | kernel/lib/malloc/malloc.c:128-148 | a new arena is one free block that fills it behind the header |
| `Heap.Arena.MergeRight` | kernel/lib/malloc/malloc.c:70-81 | joins an entry with its successor exactly when they touch |
| `Heap.Arena.AddFree` | kernel/lib/malloc/malloc.c:83-112 | the loop finds the place after the last smaller address, and list and headers become those of insertion and two merges |
| `Heap.Arena.FindEntry` | kernel/lib/malloc/malloc.c:150-158 | the first position of the list with enough bytes, or its length |
| `Heap.Arena.TryAlloc` | kernel/lib/malloc/malloc.c:160-180 | first fit: fails exactly when no free block fits, else hands out the first that does and cuts it when the rest exceeds a header |
| `Heap.Arena.FreeBlock` | kernel/lib/malloc/malloc.c:217-239 | the arena becomes the released one, list and headers in step with it |
| `Heap.Arena.Walk` | kernel/lib/malloc/malloc.c:292-308 | walking by block sizes visits exactly the blocks of the arena and ends at its end |
| `HeapRuns.PoolDetermined` | kernel/lib/malloc/malloc.c:70-239 | canonical form of a whole pool: the blocks in use determine every arena, free lists included |
| `HeapRuns.TurnLive` | kernel/lib/malloc/malloc.c:160-215 | an allocation adds exactly the block handed out to the blocks in use of the pool, and moves no arena |
| `HeapRuns.FreedLive` | kernel/lib/malloc/malloc.c:217-239 | a release takes exactly its block away |
| `HeapRuns.NewPointer` | kernel/lib/malloc/malloc.c:265-290 | a new aligned pointer is no pointer given out before |
| `HeapRuns.DoTake` | kernel/lib/malloc/malloc.c:182-215 | one kmalloc of a run keeps what the run knows of its pointers and blocks |
| `HeapRuns.DoTakeAligned` | kernel/lib/malloc/malloc.c:265-290 | one kmemalign does |
| `HeapRuns.DoGive` | kernel/lib/malloc/malloc.c:217-239 | one kfree does, and leads to the right block |
| `HeapRuns.RunCalls` | kernel/lib/malloc/malloc.c:160-290 | over any run of kmalloc, kmemalign and kfree on any pool, the blocks in use are those of the start and one for each pointer still held, which leads kfree to it; a run that has given back all its pointers, in any order, leaves every arena and free list as it was |
| `HeapPool.PoolAllocate` | kernel/lib/malloc/malloc.c:182-215 | an allocation in one arena keeps all aligned pointers given out before valid |
| `HeapPool.PoolRelease` | kernel/lib/malloc/malloc.c:217-239 | a release keeps all aligned pointers into other blocks valid |
| `HeapPool.PoolTag` | kernel/lib/malloc/malloc.c:265-290 | writing the tag inside a new block disturbs no other block, tag or header |
| `HeapPool.TargetIsRight` | kernel/lib/malloc/malloc.c:217-239 | kfree recovers the block of kmalloc for every aligned pointer and every plain one |
| `HeapPool.OffsetBelow` | kernel/lib/malloc/malloc.c:265-290 | the tag fits before the next multiple, so the offset stays below the alignment |
| `HeapPool.NewBlock` | kernel/lib/malloc/malloc.c:160-215 | the block handed out is in use afterwards, big enough, at a multiple of eight, and no earlier pointer belongs to it |
| `HeapPool.WantedIsEnough` | kernel/lib/malloc/malloc.c:182-187 | 32-bit arithmetic looks for the bytes really needed exactly when the size is at most 2^32 - 24 |
| `HeapPool.WrappedRequest` | kernel/lib/malloc/malloc.c:160-187 | beyond that at most a header is looked for, and the header word written for the block is not the negative one of a block in use |
| `HeapPool.RecoveryIff` | kernel/lib/malloc/malloc.c:217-290 | kfree recovers the block after every kmemalign of an alignment, in every valid pool and for every size, exactly when the alignment is at most 65536 |
| `HeapPool.LargeLoses` | kernel/lib/malloc/malloc.c:217-290 | for every larger alignment a pool with one empty arena is such that kfree leads elsewhere |
| `HeapPool.Pool.constructor` | kernel/lib/malloc/malloc.c:114-121 | an empty pool |
| `HeapPool.Pool.AddArena` | kernel/lib/malloc/malloc.c:128-148 | a new arena goes to the front of the pool, and an area smaller than the header is ignored |
| `HeapPool.Pool.Malloc` | kernel/lib/malloc/malloc.c:182-215 | the first arena with a block of the bytes looked for serves the request; a size above 2^32 - 24 gets the first block that small, too small for it; without such an arena the result is NULL or a panic as the flags say and nothing changes |
| `HeapPool.Pool.Search` | kernel/lib/malloc/malloc.c:189-215 | for a size that does not wrap: the first arena that serves it, with its first block that fits, or none does |
| `HeapPool.Pool.SearchWrapped` | kernel/lib/malloc/malloc.c:189-215 | for a size that wraps: the first block of what is left of the size, and it is smaller than the size asked for |
| `HeapPool.Pool.MemAlign` | kernel/lib/malloc/malloc.c:265-290 | the result is the block itself if aligned, else the next multiple of the alignment behind the tag, with the size asked for inside a new block; pools, tags and the record of aligned pointers change by exactly this block |
| `HeapPool.Pool.AlignUp` | kernel/lib/malloc/malloc.c:273-290 | moves a pointer up to the next multiple behind room for the tag, tags it and records it |
| `HeapPool.Pool.AlignThenMalloc` | kernel/lib/malloc/malloc.c:182-290 | a pointer of kmemalign with an alignment up to 65536 still leads kfree to its block after a further kmalloc, and the block is still in use |
| `HeapPool.Pool.FindArena` | kernel/lib/malloc/malloc.c:222-231 | the arena found is the one that holds the block |
| `HeapPool.Pool.Free` | kernel/lib/malloc/malloc.c:217-239 | frees exactly the block the pointer leads to, and panics exactly when it is not in use |
| `HashTable.PutAtFound` | kernel/lib/primitives/hashmap.c:194-287 | storing at the place found keeps one slot per key exactly when no hole precedes the key on its probe, and then it is the map update |
| `HashTable.SettledIffFound` | kernel/lib/primitives/hashmap.c:194-219 | no hole precedes a key exactly when it is absent or the place found is its own |
| `HashTable.DensePut` | kernel/lib/primitives/hashmap.c:194-287 | without removals no probe ever passes a hole before its key |
| `HashTable.CollectedAll` | kernel/lib/primitives/hashmap.c:224-259 | collecting all slots gives the map the table represents |
| `HashTable.RemoveSlot` | kernel/lib/primitives/hashmap.c:355-389 | emptying a slot removes its key from the map and nothing else |
| `HashTable.ProbeFinds` | kernel/lib/primitives/hashmap.c:292-321 | in a table with one slot per key the probe of eight slots finds a key exactly where the map has it |
| `HashMap.HashMap.constructor` | kernel/lib/primitives/hashmap.c:33-51 | the empty map in 256 slots |
| `HashMap.HashMap.Place` | kernel/lib/primitives/hashmap.c:194-219 | the first slot of the probe that is empty or holds the key, and none exactly when the table counts as half full or the probe is taken by other keys |
| `HashMap.HashMap.Put` | kernel/lib/primitives/hashmap.c:264-287 | a put that succeeds on a settled key is the map update and leaves at most half the slots counted as used; the count grows by one in every case, so it stays right exactly when the key is new; out of memory, what is left is part of the old map, and all of it when not even the first larger table could be had |
| `HashMap.HashMap.MakeRoom` | kernel/lib/primitives/hashmap.c:271-278 | rehashes until the key has a place: the map is kept and the count is right after a rehash, or memory is out and part of the map is left |
| `HashMap.HashMap.Insert` | kernel/lib/primitives/hashmap.c:280-286 | the write at the place found: one slot and the count change, and a settled key keeps one slot |
| `HashMap.HashMap.Rehash` | kernel/lib/primitives/hashmap.c:224-259 | rehashing keeps the map, nested rehashing included, leaves no hole on any probe and a right count, and the mutual recursion with put terminates; out of memory, the map is as it was exactly when the first allocation failed; with room for one doubling, it fails when an entry finds its probe taken by those before it, and what is left are those |
| `HashMap.HashMap.Reinsert` | kernel/lib/primitives/hashmap.c:243-253 | the loop puts back exactly the entries of the old array with no hole, or, out of memory, some but not all of them |
| `HashMap.HashMap.PutBack` | kernel/lib/primitives/hashmap.c:243-253 | one turn of that loop: the table is the one the entries so far make, or the entry has no place in it |
| `HashMap.HashMap.Find` | kernel/lib/primitives/hashmap.c:292-389 | the probe finds the key exactly when the map has it |
| `HashMap.HashMap.Get` | kernel/lib/primitives/hashmap.c:292-321 | the value of the key in the map, or missing |
| `HashMap.HashMap.Remove` | kernel/lib/primitives/hashmap.c:355-389 | removes the key from the map and lowers the count exactly when it was there |
| `HashMap.Replay` | kernel/lib/primitives/hashmap.c:194-389 | any run from a new table, if it removes nothing or puts only absent keys, answers every get like a finite map, for every hash function, and stops only when memory for the next table is out; with only absent keys put, the count is the number of keys |
| `HashTable.SoFarStored` | kernel/lib/primitives/hashmap.c:194-287 | the table that entries put in order make, one entry further |
| `HashMap.LastIsHomeless` | kernel/lib/primitives/hashmap.c:194-259 | of nine keys in a table of 256 slots, eight take the whole probe of the ninth in the table of 512 |
| `HashMap.LosesEntry` | kernel/lib/primitives/hashmap.c:224-287 | ten puts with memory for one doubling: the last one fails and the first key is gone |
| `HashMap.CountsTwice` | kernel/lib/primitives/hashmap.c:264-287 | one key put twice into a new table: the map has one key and the count is two |
| `HashMap.StaleCopy` | kernel/lib/primitives/hashmap.c:194-389 | put a, put b, remove a, put b, remove b with any two colliding keys: the next get of b answers the first value where a finite map has none |
| `Checksum.FoldIsOnesSum` | kernel/lib/network/checksum.c:37-46 | folding the integer sum gives the one's complement sum of section 1 of RFC 1071 |
| `Checksum.WrapLosesCarries` | kernel/lib/network/checksum.c:9-46 | a 32-bit accumulator gives the same fold exactly when the sum does not overflow it |
| `Checksum.WordsAppend` | kernel/lib/network/checksum.c:9-30 | cutting a buffer at an even offset splits its words, so partial sums add up |
| `Checksum.SumEvery16Bits` | kernel/lib/network/checksum.c:9-30 | the loop returns the sum of the 16-bit words modulo 2^32, odd last byte included |
| `Checksum.Compute` | kernel/lib/network/checksum.c:32-47 | the fold loop terminates and the result is the complement of the folded 32-bit sum |
| `Checksum.ChecksumIsComplement` | kernel/lib/network/checksum.c:32-47 | the result is the complement of the one's complement sum exactly when the accumulator does not overflow |
| `Checksum.StoredChecksumVerifies` | kernel/lib/network/checksum.c:32-47 | with its checksum stored in a zeroed field at an even offset the buffer checks to zero, whatever it holds and however long it is |
| `Checksum.StoredTcpUdpVerifies` | kernel/lib/network/checksum.c:49-60 | and so does a TCP or UDP segment, also when the checksum is not that of the standard |
| `Checksum.ComplementFits` | kernel/lib/network/checksum.c:32-47 | adding the complement of its fold to a 32-bit sum never overflows |
| `Checksum.StoredSum` | kernel/lib/network/checksum.c:9-30 | storing a word in a zeroed field at an even offset adds it to the sum |
| `Checksum.ByteOrder` | kernel/lib/network/checksum.c:9-46 | byte order independence of section 2 (B) of RFC 1071: the sums of the same bytes in the two orders are each other with bytes exchanged, for every buffer |
| `Checksum.SameBytes` | kernel/lib/network/checksum.c:32-47 | so machines of both orders put the same two bytes into the checksum field, where neither sum overflows |
| `Checksum.RfcExample` | kernel/lib/network/checksum.c:32-47 | the example of section 3 of RFC 1071 has checksum 0x220D in one order and 0x0D22 in the other |
| `Checksum.OddExample` | kernel/lib/network/checksum.c:21-28 | the buffer 1, 2, 3 has checksum 0xFBFD in one order and 0xFDFB in the other |
| `Checksum.AccumulatedFolds` | kernel/lib/network/checksum.c:49-60 | what is accumulated from two 32-bit addresses, protocol, length and segment folds to the sum over the bytes of the pseudo-header and the segment |
| `Checksum.SegmentSameBytes` | kernel/lib/network/checksum.c:49-60 | so the checksum of a segment is the same two bytes in either order, where neither sum overflows |
| `Checksum.LoadExample` | kernel/lib/network/checksum.c:49-60 | 192.168.0.1 is added as 0xC0A80001 or as 0x0100A8C0, and protocol and length as network words |
| `Checksum.TcpUdp` | kernel/lib/network/checksum.c:49-60 | the result is the complement of the folded 32-bit sum over pseudo-header and segment |
| `Checksum.TcpUdpIffNoOverflow` | kernel/lib/network/checksum.c:49-60 | it is the checksum over the pseudo-header of section 3.1 of RFC 793 and the segment exactly when the accumulator does not overflow |
| `Checksum.OverflowExample` | kernel/lib/network/checksum.c:49-60 | it does overflow, in either byte order, for a UDP header alone between two private addresses |
| `Checksum.WithFieldZeroed` | kernel/lib/network/checksum.c:62-86 | the checksum is that of the packet with its field zeroed, and the packet is left as it was |
| `Clock.DiffIsTrue` | kernel/platform/malta/clock.c:47-75 | the 32-bit difference of compare and count is the true one when that is below 2^31 |
| `Clock.TakenIff` | kernel/platform/malta/clock.c:47-75 | an interrupt past its deadline is taken as such exactly when its lateness modulo 2^32 is at most 2^31 |
| `Clock.DiffLate` | kernel/platform/malta/clock.c:47-51 | the 32-bit difference of a passed deadline is minus its lateness modulo 2^32, up to 2^31, and positive beyond |
| `Clock.RightIff` | kernel/platform/malta/clock.c:47-75 | after an interrupt past its deadline the count is the elapsed time in milliseconds, rounded up, exactly when the lateness is at most 2^31 ticks |
| `Clock.Timer.constructor` | kernel/platform/malta/clock.c:16-32 | the first deadline is one millisecond from zero |
| `Clock.Timer.Irq7` | kernel/platform/malta/clock.c:47-75 | for every interrupt, however late and across counter wraps: compare is the next deadline modulo 2^32, an early one changes nothing, and a late one leaves the count right exactly when it is at most 2^31 ticks late |
| `Clock.Timer.CatchUp` | kernel/platform/malta/clock.c:58-65 | the loop counts up to the time seen, which is the true one less whole wraps of the counter since the deadline |
| `Cpio.FieldRoundTrip` | kernel/lib/kernel/initrd/CpioExtractor.cpp:55-60 | an eight-digit hexadecimal field, in capitals or not, is read back as the number written |
| `Cpio.DigitTable` | kernel/lib/kernel/initrd/CpioExtractor.cpp:55-60 | the sixteen digits in both cases have the values 0 to 15 and no other byte is a digit |
| `Cpio.StrtoulBlank` | kernel/lib/kernel/initrd/CpioExtractor.cpp:55-60 | a blank before a field is skipped |
| `Cpio.StrtoulSigned` | kernel/lib/kernel/initrd/CpioExtractor.cpp:55-60 | a plus sign changes nothing, a minus sign negates the number modulo 2^32 |
| `Cpio.StrtoulPrefixed` | kernel/lib/kernel/initrd/CpioExtractor.cpp:55-60 | the prefix 0x or 0X changes nothing |
| `Cpio.StrtoulNone` | kernel/lib/kernel/initrd/CpioExtractor.cpp:55-60 | a field that starts with anything else is zero |
| `Cpio.NameMeans` | kernel/lib/kernel/initrd/CpioExtractor.cpp:48-48 | the name is what stands before the first zero or the end of the given length, whichever comes first |
| `Cpio.StepEnd` | kernel/lib/kernel/initrd/CpioExtractor.cpp:24-26 | an entry named "." or "TRAILER!!!", with any mode and data, ends the extraction successfully |
| `Cpio.ExtractedIff` | kernel/lib/kernel/initrd/CpioExtractor.cpp:20-26 | a header ends it successfully exactly when its magic is right and its name is one of the two |
| `Cpio.BadMagicIff` | kernel/lib/kernel/initrd/CpioExtractor.cpp:19-21 | it fails exactly where six bytes can be read and are not "070702" |
| `Cpio.WalkUpTo` | kernel/lib/kernel/initrd/CpioExtractor.cpp:15-40 | where a header ends the extraction, well or badly, exactly the entries before it have been extracted, in order |
| `Cpio.WalkToDot` | kernel/lib/kernel/initrd/CpioExtractor.cpp:15-40 | so an entry "." ends the extraction after the entries before it, whatever follows |
| `Cpio.WalkToBadMagic` | kernel/lib/kernel/initrd/CpioExtractor.cpp:15-40 | and a bad magic makes it fail after the entries before it |
| `Cpio.ParseEntry` | kernel/lib/kernel/initrd/CpioExtractor.cpp:42-53 | a header, name and data in the newc layout are parsed as the entry they describe, with the addresses of its data and of the next header |
| `Cpio.ParsedAddrs` | kernel/lib/kernel/initrd/CpioExtractor.cpp:49-50 | whatever the header says, the addresses of its data and of the next header are multiples of four below 2^32 |
| `Cpio.Extract` | kernel/lib/kernel/initrd/CpioExtractor.cpp:15-40 | after any number of turns the loop is where the walk is, for every memory and archive, with bad magic, unreadable memory, and next positions anywhere below 2^32; after more turns than there are addresses up to the end, it still runs exactly if it has come to an address twice |
| `Cpio.TurnsAre` | kernel/lib/kernel/initrd/CpioExtractor.cpp:15-53 | every memory makes such turns |
| `Cpio.ForeverIff` | kernel/lib/kernel/initrd/CpioExtractor.cpp:15-53 | extraction never ends exactly when it comes to an address twice |
| `Cpio.LateIff` | kernel/lib/kernel/initrd/CpioExtractor.cpp:15-40 | which shows after as many turns as there are addresses |
| `Cpio.RunsOn` | kernel/lib/kernel/initrd/CpioExtractor.cpp:15-40 | from an address met twice on the loop runs forever |
| `Cpio.LongRepeats` | kernel/lib/kernel/initrd/CpioExtractor.cpp:15-40 | a loop longer than the number of addresses has met one twice |
| `Cpio.Halts` | kernel/lib/kernel/initrd/CpioExtractor.cpp:15-40 | a walk in which none of the headers visited leads back ends within as many turns as the archive has bytes |
| `Cpio.SmallAdvances` | kernel/lib/kernel/initrd/CpioExtractor.cpp:42-53 | a header whose sizes keep the next position below 2^32 leads onwards |
| `Cpio.SmallHalts` | kernel/lib/kernel/initrd/CpioExtractor.cpp:15-53 | so extraction ends when none of the headers visited wraps, whatever the files hold |
| `Cpio.LoopsForever` | kernel/lib/kernel/initrd/CpioExtractor.cpp:15-53 | a directory header whose size takes the 32-bit next position back to itself is visited forever, whatever its mode and one-letter name and at whatever multiple of four it is loaded |
| `Cpio.WalkVisitsAll` | kernel/lib/kernel/initrd/CpioExtractor.cpp:15-40 | over any archive of entries the loop performs the actions of all entries in order and no others, and stops at its end or at an entry "." or "TRAILER!!!", whatever follows that |
| `Cpio.EncodedArchive` | kernel/lib/kernel/initrd/CpioExtractor.cpp:15-60 | the encoding of any list of entries with either ending is an archive, wherever it lies and whatever follows |
| `Cpio.EncodeMoved` | kernel/lib/kernel/initrd/CpioExtractor.cpp:42-53 | an encoding can be moved by any multiple of four |
| `Cpio.RoundTrip` | kernel/lib/kernel/initrd/CpioExtractor.cpp:15-60 | extracting the encoding of any list of entries, loaded at any multiple of four among other bytes, performs exactly their actions in order and ends, with "." or "TRAILER!!!" at the end and whatever follows it |
| `Cpio.DirectoryBitTypes` | kernel/lib/kernel/initrd/CpioExtractor.cpp:29-33 | the directory test takes block devices and sockets for directories too, and exactly the types with that bit |
| `Pmap.EntryFields` | kernel/platform/malta/tlb.h:11-37 | frame, protection, valid and global bits of a page-table word are read back as written |
| `Pmap.ProtBitsMean` | kernel/platform/malta/pmap.c:184-193 | a protection other than none is valid, it is dirty exactly with the write bit, and it has no other bits |
| `Pmap.EntryMeans` | kernel/platform/malta/pmap.c:197-211 | so a page with that word translates with the write bit set exactly when the protection has it, and not at all for no protection |
| `Pmap.PhysAtFrames` | kernel/platform/malta/pmap.c:273-286 | the frames of a range are consecutive page addresses |
| `Pmap.ChangeFields` | kernel/platform/malta/pmap.c:228-236 | changing the protection keeps the frame |
| `Pmap.AddPdeKeeps` | kernel/platform/malta/pmap.c:150-166 | adding a directory entry changes no translation and no word |
| `Pmap.SetPteKeeps` | kernel/platform/malta/pmap.c:197-211 | writes the word of its page and of no other |
| `Pmap.WritesRangeMaps` | kernel/platform/malta/pmap.c:273-286 | refinement: a mapped range translates page by page to consecutive frames with its protection, every other page as before |
| `Mmu.WritesRangeMeans` | kernel/platform/malta/pmap.c:273-286 | after pmap_map every page of the range translates to its frame, valid if the protection is not none and dirty exactly with the write bit |
| `Mmu.EditsRangeMeans` | kernel/platform/malta/pmap.c:288-309 | after pmap_protect every page has the valid and dirty bits of the new protection, after pmap_unmap every word is zero and no page translates |
| `Pmap.ChangesTranslate` | kernel/platform/malta/pmap.c:228-236 | a changed page translates to the frame in its word with the new protection, whether it was mapped or not; one never touched comes to be mapped to frame 0 |
| `Pmap.ProbeAfterMap` | kernel/platform/malta/pmap.c:242-286 | a probe for the protection just mapped finds it on every page of the range |
| `Pmap.RangeCheckIff` | kernel/platform/malta/pmap.c:132-147 | the mapped-range check answers for every page of a range exactly when the range is a single page and not one of the last 1024, where the stride wraps around |
| `Pmap.Setup` | kernel/platform/malta/pmap.c:69-84 | no page translates, and unused directory entries are global in kernel space only |
| `Pmap.IsRangeMapped` | kernel/platform/malta/pmap.c:132-147 | true exactly when the pages one fragment apart from the start are mapped and no stride wraps around |
| `Pmap.UntouchedPairIsGlobal` | kernel/platform/malta/pmap.c:150-166 | untouched words of a new fragment are global, in user fragments too |
| `Mmu.FilledFrom` | kernel/platform/malta/pmap.c:346-417 | every TLB entry was there before the refills or is a copy of current words |
| `Mmu.DirSource` | kernel/platform/malta/pmap.c:346-417 | directory entries of the upper quarter are refilled from the kernel, the others from the space that runs |
| `Mmu.FragmentGood` | kernel/platform/malta/pmap.c:150-166 | a new fragment makes no TLB entry disagree with the table it came from |
| `Mmu.WriteGood` | kernel/platform/malta/pmap.c:197-236 | nor does a stored word, with refills from any space before the pair is invalidated for this one |
| `Mmu.RunGood` | kernel/platform/malta/pmap.c:69-417 | over every run of refills, replacements, new spaces, fragments, stored words and resets, an entry that its own space is answered by agrees with the table of that space |
| `Mmu.SeenIffSafe` | kernel/platform/malta/pmap.c:197-236 | after a store every running space sees the current words of its own pages and of the kernel's, whatever refills come around it, exactly when the page is not the kernel's, both words of its pair were global, or nothing changes |
| `Mmu.ClearedUnsafe` | kernel/platform/malta/pmap.c:213-225 | the next store after the kernel has unmapped a page is not such a store |
| `Mmu.RunSeen` | kernel/platform/malta/pmap.c:69-417 | over every run of such stores and any other steps, every space sees the current words |
| `Mmu.ProtectMapsNoneIff` | kernel/platform/malta/pmap.c:299-309 | pmap_protect maps no page that was not mapped exactly when it takes all access away or the whole range was mapped |
| `Mmu.MismatchIff` | kernel/platform/malta/pmap.c:242-271 | in every state a run reaches, refills can make the TLB contradict the table of a space at a page exactly when another space has both words of the pair global and a different word there |
| `Mmu.MismatchedFrom` | kernel/platform/malta/pmap.c:251-262 | a TLB that contradicts a table holds an entry of such a space |
| `Mmu.WindowIff` | kernel/platform/malta/pmap.c:346-397 | in every state a run reaches, refills can lead a space through the page-table window to a fragment that is not its own exactly when another space has both fragments of the pair, with another directory entry |
| `Mmu.TwoWindows` | kernel/platform/malta/pmap.c:150-166 | it happens with two spaces and three fragments |
| `Mmu.SetPteIsSteps` | kernel/platform/malta/pmap.c:197-211 | the page-table write on which the address spaces are built is made of these steps |
| `Mmu.Mmu.constructor` | kernel/platform/malta/pmap.c:103-111 | the kernel's empty table and an empty TLB |
| `Mmu.Mmu.New` | kernel/platform/malta/pmap.c:113-117 | an empty table under the next ASID, which was not in use, and failure exactly when the ASIDs are out |
| `Mmu.Mmu.Delete` | kernel/platform/malta/pmap.c:87-99 | the table goes and the whole TLB with it |
| `Mmu.Mmu.Hardware` | kernel/platform/malta/pmap.c:346-417 | the shared TLB refills from the tables of all spaces and drops entries at any time, and keeps its invariant |
| `Mmu.Mmu.Store` | kernel/platform/malta/pmap.c:197-236 | one word of one table is written, and what answers for its pair is dropped after any refills in between |
| `Mmu.Mmu.SetPteAt` | kernel/platform/malta/pmap.c:197-211 | refines the write on values and fails exactly when a fragment is needed and no frame is left |
| `Mmu.Mmu.MapLoop` | kernel/platform/malta/pmap.c:282-285 | the loop writes the words of the range in one table, and takes frames in order for missing fragments only |
| `Mmu.Mmu.Map` | kernel/platform/malta/pmap.c:273-286 | panics exactly when the range check passes; otherwise writes the words of the range and no other, in one table only, and lists the new fragments; frames run out only if a fragment is missing; every page of the range then translates to its frame, dirty exactly with the write bit |
| `Mmu.Mmu.Edit` | kernel/platform/malta/pmap.c:288-309 | pmap_unmap and pmap_protect: the assertion fails exactly when the range check does; otherwise the words of the range are cleared or get the new protection and no others, up to the first page whose fragment is missing, where the access faults; words unmapped are zero and do not translate, pages protected are dirty exactly with the write bit |
| `Mmu.Mmu.ProbeTlb` | kernel/platform/malta/tlb.h:73-76 | the words of an entry that answers, or none does |
| `Mmu.Mmu.ProbePage` | kernel/platform/malta/pmap.c:251-267 | a mismatch at a page means that another space contradicts it, and comes for sure when all entries that answer differ |
| `Mmu.Mmu.Probe` | kernel/platform/malta/pmap.c:242-271 | the panic comes only at a page that another space contradicts, and for sure at the first page whose TLB entries all differ if the pages before it have the protection; without it the answer is yes exactly when the range is in bounds and every page has the protection |
| `Mmu.TwoSpaces` | kernel/platform/malta/pmap.c:242-286 | two spaces, one page mapped in each and one refill: the probe of the page just mapped panics |
| `VmMap.CmpRight` | kernel/lib/mm/vm_map.c:83-87 | the comparator orders two addresses right exactly when they are less than 2^31 apart |
| `VmMap.NextOrdered` | kernel/lib/mm/vm_map.c:83-124 | so among keys less than 2^31 above the start of the space the successor by the comparator is the successor by address |
| `VmMap.SameIs` | kernel/lib/mm/vm_map.c:83-119 | and the comparator finds exactly the key itself |
| `VmMap.InsertSorted` | kernel/lib/mm/vm_map.c:117-133 | insertion before the successor keeps the list strictly sorted |
| `VmMap.InsertStarts` | kernel/lib/mm/vm_map.c:117-133 | and equal to the tree's in-order sequence |
| `VmMap.InsertDisjoint` | kernel/lib/mm/vm_map.c:117-133 | and free of overlap |
| `VmMap.ResizeKeeps` | kernel/lib/mm/vm_map.c:267-300 | a resize into the gap keeps order and disjointness |
| `VmMap.FitsIff` | kernel/lib/mm/vm_map.c:267-300 | the end may move exactly when it stays in the space and no other entry has anything of the new range |
| `VmMap.Entries.constructor` | kernel/lib/mm/vm_map.c:93-96 | an empty list and tree |
| `VmMap.Entries.Insert` | kernel/lib/mm/vm_map.c:117-133 | list, tree and count gain the entry before its successor by the comparator, which keeps both in address order, unless an entry starts there already |
| `VmMap.Entries.Find` | kernel/lib/mm/vm_map.c:135-148 | finds the only entry that covers the address, or none does |
| `VmMap.Entries.FindSpace` | kernel/lib/mm/vm_map.c:207-260 | the least free address at or above the clamped start where the length fits, and failure when there is none, exactly unless a 32-bit sum overflows: then the answer is an address whose range runs past 2^32 |
| `VmMap.Entries.Search` | kernel/lib/mm/vm_map.c:221-250 | the search of the gaps when the first sum does not overflow |
| `VmMap.Entries.WrappedSearch` | kernel/lib/mm/vm_map.c:221-250 | when it does, an address is found though nothing is free |
| `VmMap.FullSpaceOverflows` | kernel/lib/mm/vm_map.c:207-260 | it overflows in every full space that ends less than the length below 2^32, as the kernel's does for any length |
| `VmMap.Entries.Resize` | kernel/lib/mm/vm_map.c:267-300 | succeeds exactly when the new end is within the space and no other entry has anything of the new range, and changes that end only |
| `VmObject.InsertHolds` | kernel/lib/mm/vm_object.c:75-91 | the list with a new page in it holds the map with that page added |
| `VmObject.WithoutHolds` | kernel/lib/mm/vm_object.c:93-98 | the list without a page holds the map without it |
| `VmObject.PageList.constructor` | kernel/lib/mm/vm_object.c:52-57 | no pages |
| `VmObject.PageList.FindPage` | kernel/lib/mm/vm_object.c:70-73 | the frame at the offset, or none exactly when the object has no such page |
| `VmObject.PageList.AddPage` | kernel/lib/mm/vm_object.c:75-91 | list, tree and count gain the page before its successor by the comparator, which keeps both in offset order, unless the offset is taken |
| `VmObject.PageList.RemovePage` | kernel/lib/mm/vm_object.c:93-98 | list, tree and count lose the page, and its frame is the one to free |
| `VmObject.PageList.Free` | kernel/lib/mm/vm_object.c:59-68 | every frame of the object is freed once, in offset order |
| `Held.TakeOne` | kernel/lib/mm/physmem.c:257-271 | one frame more is held, and it was not held before |
| `Held.GiveOne` | kernel/lib/mm/physmem.c:304-318 | one frame less is held |
| `Held.AllGivenBack` | kernel/lib/mm/physmem.c:225-318 | with nothing held the free blocks are exactly those of the start |
| `Held.NoneLeft` | kernel/lib/mm/physmem.c:257-271 | a single-frame allocation fails exactly when no frame is free |
| `VmSpace.ExactlyOnePlace` | kernel/lib/mm/vm_map.c:109-175 | every held frame lies in the directory, the fragment list or an object of exactly one space, and nothing else lies anywhere |
| `VmSpace.MappedTo` | kernel/lib/mm/vm_map.c:355-411 | a page of an object is mapped to its frame with the entry's protection |
| `VmSpace.MappedIffBacked` | kernel/lib/mm/vm_map.c:355-411 | a user page is mapped exactly when the object of its covering entry holds it |
| `VmSpace.FaultOk` | kernel/lib/mm/vm_map.c:380-395 | a fault adds the page to the object and its word to the table and keeps the two in agreement |
| `VmSpace.AddEntryStep` | kernel/lib/mm/vm_map.c:177-201 | a new entry keeps ownership and agreement of all spaces |
| `VmSpace.ResizeStep` | kernel/lib/mm/vm_map.c:267-300 | a resize keeps them |
| `VmSpace.PageOwns` | kernel/lib/mm/vm_object.c:75-91 | adding a fresh frame to an object keeps ownership |
| `VmSpace.FragmentOwns` | kernel/platform/malta/pmap.c:150-166 | adding a fresh frame to the fragment list keeps ownership |
| `VmSpace.DropPageOwns` | kernel/lib/mm/vm_object.c:59-68 | taking a page out of an object leaves its frame held by nobody |
| `VmSpace.DropFragmentOwns` | kernel/platform/malta/pmap.c:87-99 | taking a fragment off the list leaves its frame held by nobody |
| `Vm.Vm.constructor` | kernel/lib/mm/vm_map.c:93-115 | no spaces; what was allocated before stays apart |
| `Vm.Vm.New` | kernel/lib/mm/vm_map.c:109-115 | a new empty space under a fresh ASID, others untouched; fails only for want of a frame or of an ASID |
| `Vm.Vm.AddEntry` | kernel/lib/mm/vm_map.c:177-201 | the entry with these bounds, this protection and an empty object is inserted among the others, unless one starts there already |
| `Vm.Vm.Resize` | kernel/lib/mm/vm_map.c:267-300 | succeeds exactly when the new end is within the user space and no other entry has anything of the new range, and changes that end only |
| `Vm.Vm.PagerFault` | kernel/lib/mm/vm_pager.c:42-50 | the object gains a frame that was free and that nobody held; without a free frame nothing changes |
| `Vm.Vm.EnterPage` | kernel/platform/malta/pmap.c:197-211 | the word of the page is written and no other, taking a frame exactly when the fragment is missing |
| `Vm.Vm.PageFault` | kernel/lib/mm/vm_map.c:355-411 | segfault exactly when no entry that covers the page has the read or write bit of the access; a fault that is handled leaves a word that lets the access through, dirty for a write; panic exactly when the page is mapped already; otherwise the page gets a frame that was free, reads zero if free memory did at the start, and all frames held before stay where they are |
| `Vm.AllowedIffBit` | kernel/lib/mm/vm_map.c:368-378 | the three tests of the protection amount to the read or write bit |
| `Vm.PermittedIffBit` | kernel/lib/mm/vm_map.c:364-378 | and so with the entry that covers the page |
| `Vm.FaultedWord` | kernel/lib/mm/vm_map.c:380-395 | the word stored for the page is valid, and dirty when a write was asked for |
| `Vm.UnwritableIffBit` | kernel/lib/mm/vm_map.c:372-374 | a clone meets a page it may not write exactly when an entry with pages lacks the write bit |
| `Vm.Vm.Drain` | kernel/lib/mm/vm_object.c:59-68 | all pages of the object are freed, other spaces keep frames and contents |
| `Vm.Vm.ResetTable` | kernel/platform/malta/pmap.c:87-122 | all fragments and the directory are freed |
| `Vm.Vm.Delete` | kernel/lib/mm/vm_map.c:162-175 | exactly this space goes, every other keeps its entries, table, frames and contents, and the invariant holds |
| `Vm.Vm.DeleteAll` | kernel/lib/mm/vm_map.c:162-175 | once all spaces are deleted the allocator has exactly the free blocks of the start |
| `Vm.Vm.CopyPage` | kernel/lib/mm/vm_map.c:341-346 | the page written by the copy is faulted in with a fresh frame that gets the contents of the source; a segfault exactly when the entry does not allow writing |
| `Vm.Vm.CopyObject` | kernel/lib/mm/vm_map.c:341-346 | all pages of an object get copies, at the same offsets and no others; a segfault exactly when the object has pages and its entry does not allow writing |
| `Vm.Vm.Clone` | kernel/lib/mm/vm_map.c:324-353 | the clone has the same entries, exactly the same pages present, equal contents, no frame shared with any space, the original untouched, the active map restored; it comes about only if every entry with pages allows writing, and fails otherwise only for want of frames or ASIDs |
| `Vm.Vm.Do` | kernel/lib/mm/vm_map.c:109-411 | every operation does to the spaces what is said of it and nothing else, keeps ownership and agreement, and stops the kernel only when frames or ASIDs are out, a mapped page is faulted again or a clone meets a page it may not write |
| `Vm.NotShared` | kernel/lib/mm/vm_map.c:324-353 | a space made later holds no frame that an earlier one held |
| `Vm.RunAndTearDown` | kernel/lib/mm/vm_map.c:109-411 | over any run of new, add, resize, fault, clone and delete, each doing what is said of it, followed by the deletion of all maps, the free blocks are those before the run |

## Left out

- krealloc, which copies the old size even when it shrinks a block.
- Segment lists: the machine creates one segment, so `pm_alloc` and `pm_free` are those of it.
- PhysMem.Segment.constructor: segments that are not 2^k pages with k at most 15 are covered by `SegInit` only, the allocator is unsound there.
- HeapPool.Pool.AddArena: areas between the arena header and one usable block are excluded, the code underflows there.
- HeapPool.Pool.Free: pointers that lead to no block start of the pool are excluded, the code reads arbitrary memory there.
- HeapPool.Pool.Malloc: for a size above 2^32 - 24 the block found is stated, not the damage done by writing its header.
- HeapPool.Pool.MemAlign: sizes that wrap once the alignment is added are excluded.
- PhysMem.Segment.FreeFromSeg: allocated pages that do not head a block are excluded, the code takes the size from another page's descriptor.
- Heap.Arena.constructor: areas whose base or size is no multiple of eight are excluded.
- Heap contents, the M_ZERO flag and the magic words of blocks and arenas; a plain payload is not preceded by the tag's magic half-word.
- Splay and red-black trees are ordered sequences of keys; their balance is not modelled.
- VmSpace works with the map that a `VmObject.PageList` holds, so the order in which the pages of an object are copied or freed there is any order.
- VmMap.Entries.Insert: an entry that starts 2^31 bytes or more above the start of the space is excluded, the comparator gives no order there; in a user space that is only an empty entry at its very end.
- VmObject.PageList.AddPage: offsets of 2^31 bytes or more are excluded for the same reason.
- Vm.Vm.AddEntry: ranges that overlap an entry are excluded, the check for them is compiled out in the source, and so is an empty entry at the very end of the space.
- Vm.Vm.PageFault: only the active map, whose table is the one in the virtual window; the kernel map is not modelled.
- Vm.Vm.New: the pools for map, entry, object and pmap structures are not drawn from; only frames are.
- Vm.RunAndTearDown: says nothing of a run at whose end the kernel has stopped for want of frames or ASIDs.
- vm_map_remove_entry on its own, which leaves the tree node and the page-table words behind, and vm_map_protect, which is empty.
- Mmu.Mmu.Edit: what the fault handler does when the access to a missing fragment faults is not part of it.
- Mmu.Mmu.Probe: with several entries that answer, the machine's choice is any of them.
- Vm.Vm.EnterPage: each space is taken to reach its own page table, see `Mmu.WindowIff`; the TLB is not part of `Vm`.
- TLB replacement, caches and the refill assembly: the TLB refills and drops entries at any time.
- Interrupt masking: each operation is atomic.
- The hash function itself, allocation failure of keys, and iteration over the table.
- Cpio.Extract: memory is readable from address 0 to some end; `step` names the turns that this memory makes.
- HeapRuns.RunCalls: sizes that wrap in 32 bits and alignments above 65536 are excluded, see `HeapPool.WrappedRequest` and `HeapPool.RecoveryIff`.
- Writing of the extracted files and creation of directories; the extractor's actions are listed instead.
- Clock.Timer.Irq7: the millisecond count does not wrap at 2^64.
- Locks, scheduler, processes, drivers, network stack above the checksum, file systems, ELF loading and user programs.
