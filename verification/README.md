# PTLsim: verified models of the stateful core

This project models the data structures at the heart of the PTLsim simulator (under
`llvm-2.3/ptlsim`) in Dafny and proves what they promise: that several views of one truth stay in
agreement whatever happens, that nothing is lost or handed out twice, and that fast forms compute
what simple ones say.

* **Memory manager** (`FreeExtents`, `Buckets`, `Alignment`, `ExtentAllocator`, `SlabAllocator`,
  `PageAccounts`, `MemoryManager`, `MemoryClients`). The extent allocator keeps one set of free extents in three
  tables; it is proved to depend on the set of free chunks alone. Slab allocators keep pages on
  three lists. On the bare machine both draw on the page allocator, and every page and chunk is
  accounted for at all times.
* **Miss handling** (`MissState`, `MissInvariant`, `MissRuns`, `CacheHierarchy`). The load fill
  request queue and the miss buffer as one state machine, with its invariant over all runs,
  conservation of loads, and exact timing; and the imperative structures that perform its steps.
* **Statistics** (`LittleEndian`, `StatsTree`, `StatsSubtract`, `StatsStrings`, `StatsPaths`, `StatsFormat`,
  `StatsRoundTrip`, `StatsStream`, `StatsTemplate`, `StatsFile`, `StatsFileReader`). Subtraction of
  flat counters commutes with rebuilding trees exactly when strings are terminated, and the binary
  format round-trips.
* **Branch prediction** (`FixedQueue`, `ReturnAddressStack`, `AssociativeArray`). Undoing
  speculative calls and returns, and the branch target buffer.
* **Tags** (`Replacement`, `VectorTags`, `AssociativeArray`). Summed matching under uniqueness, in
  scalar and in byte-sliced vector form, and the translation lookaside buffers built on it.
* **Basic blocks** (`UopBlocks`, `TraceDecoder`, `BasicBlockCache`). Assembly of blocks of uops
  and the cache that finds them by address and by page.
* **Page protection** (`PageBitmap`). The two-level bitmap and copying to and from user memory.

`dafny verify dfyconfig.toml` checks everything.

## Conventions

Objects whose methods update fields are classes. An intrusive linked list, with insertion at the
head and unlinking in place, is a sequence, most recently added element first. A null pointer is
0 or -1. Allocator addresses are in chunks, pages or bytes, as each file says. Stateful classes have a
`Valid` predicate, which is what every operation keeps; the methods' postconditions give the whole
new abstract state.

## Findings

* `dcache.h:516-518`: freeing a queue slot does not lower the entry count, so that each load refused
  for lack of a miss buffer makes the queue look fuller. The assertion at `dcache.cpp:109` then
  fails with free slots left, exactly in the states `MissRuns.AssertionFailsExactlyWhen` describes.
* `mm.cpp:415`: the count of allocated bytes becomes zero on every release, as `min` takes an
  unsigned zero. The model follows the code.
* `mm.cpp:426-462`: the page search relies on the page size being at most one chunk more than the
  number of size buckets (`ExtentAllocation.EndsNeverCross`); both instances satisfy this.
* `mm.cpp:1186-1195`: of the 64 attempts to get pages only the first two can differ when no reclaim
  handler frees anything, as a second cleanup changes nothing.
* `kernel.h:314-328`: when only the second page is not writable, `copy_to_user` returns the number
  of bytes on the first page and marks it dirty although it wrote nothing.
* `kernel.h:275` and `kernel.h:306`: the present bit of a fault is set when the page is *not*
  readable in one direction of copying, and when it is in the other.
* `logic.h:387-394`: as soon as two ways are unused, searching for the invalid tag gives a number
  that is no way, or that of a way with another tag (`AssociativeArrays.SumIsLookup`,
  `AssociativeArrays.InvalidFindsOther`).
* `branchpred.cpp:121-128`: while the stack has room for it, undoing a return that underflowed
  leaves a zero entry (`ReturnAddressStacks.UnderflowsLeaveBogus`). Without room the zero entry can
  disappear again (`UnderflowCanRecover`); `UndoRestoresExactly` says when the stack is restored.
* `datastore.cpp:1094-1097`: a string that fills its words has no end, and subtraction then shows
  through it (`StatsStrings.CommutesExactlyWhen`). `ptlsim.cpp:347` leaves a snapshot name of full
  length without its null.
* `datastore.cpp:1194-1290`: the index lists the latest name first, and reading it keeps the last
  entry of a name, so that a repeated name finds the first record (`StatsFileReaders.UuidsAreFirst`).

## Model

| member | source | states |
|---|---|---|
| `FreeExtents.ExtentsAreMaximalRuns` | `llvm-2.3/ptlsim/mm.cpp:331-388` | a set of non-touching extents consists of exactly the maximal runs of the free chunks |
| `FreeExtents.Canonical` | `llvm-2.3/ptlsim/mm.cpp:331-388` | two sets of non-touching extents that cover the same chunks are equal: the extents are a function of the free chunks alone |
| `FreeExtents.MergeRight` | `llvm-2.3/ptlsim/mm.cpp:356-366` | joining a released run with the extent that starts at its end keeps the covered chunks and leaves nothing touching on the right |
| `FreeExtents.MergeLeft` | `llvm-2.3/ptlsim/mm.cpp:368-379` | joining it with the extent that ends at its start leaves a run that touches no extent |
| `FreeExtents.NoRun` | `llvm-2.3/ptlsim/mm.cpp:285-329` | if every extent is shorter than n, no n consecutive chunks are free |
| `ExtentAllocation.EndsNeverCross` | `llvm-2.3/ptlsim/mm.cpp:426-462` | the rounded ends of every extent the page search looks at are in order, so that their unsigned difference cannot wrap, if and only if a page spans at most one chunk more than there are size buckets |
| `ExtentAllocation.ExtentAllocator.constructor` | `llvm-2.3/ptlsim/mm.cpp:223-246` | a reset allocator has no free chunks and consistent tables |
| `ExtentAllocation.ExtentAllocator.FindByStart` | `llvm-2.3/ptlsim/mm.cpp:248-258` | finds the extent that starts at an address, and only that |
| `ExtentAllocation.ExtentAllocator.FindByEnd` | `llvm-2.3/ptlsim/mm.cpp:260-270` | finds the extent that ends at an address, or none ends there |
| `ExtentAllocation.ExtentAllocator.AllocExtent` | `llvm-2.3/ptlsim/mm.cpp:272-283` | takes an extent out of all three tables and out of the free byte count |
| `ExtentAllocation.ExtentAllocator.TakeFront` | `llvm-2.3/ptlsim/mm.cpp:301-314` | splitting an extent takes exactly its first n chunks from the free ones |
| `ExtentAllocation.ExtentAllocator.FindInSizeSlot` | `llvm-2.3/ptlsim/mm.cpp:285-318` | takes a block from an adequate extent of one size bucket, or there is none in that bucket |
| `ExtentAllocation.ExtentAllocator.FindFreeExtent` | `llvm-2.3/ptlsim/mm.cpp:320-329` | takes a block from a smallest adequate extent (below the last bucket), or every extent is too short |
| `ExtentAllocation.ExtentAllocator.FreeExtent` | `llvm-2.3/ptlsim/mm.cpp:331-388` | releasing a run with merging on both sides adds exactly its chunks and keeps the three tables in agreement and all extents apart |
| `ExtentAllocation.ExtentAllocator.Alloc` | `llvm-2.3/ptlsim/mm.cpp:390-407` | fails if and only if nothing was asked for or no long enough run of chunks is free; else the block was free, exactly it is taken, from a smallest adequate extent below the last bucket |
| `ExtentAllocation.ExtentAllocator.Free` | `llvm-2.3/ptlsim/mm.cpp:409-418` | adds exactly the block to the free chunks; the allocated byte count becomes 0 as the code has it |
| `ExtentAllocation.ExtentAllocator.AddToFreePool` | `llvm-2.3/ptlsim/mm.cpp:420-424` | adds exactly the new storage to the free chunks |
| `ExtentAllocation.ExtentAllocator.AllocThenFree` | `llvm-2.3/ptlsim/mm.cpp:390-418` | allocation followed by release of the block restores every extent and the free byte count, whatever was split and merged |
| `ExtentAllocation.ExtentAllocator.SameFreeChunksSameExtents` | `llvm-2.3/ptlsim/mm.cpp:331-418` | allocators with the same free chunks have the same extents and counters, whatever was done to them |
| `ExtentAllocation.ExtentAllocator.TrimFreeExtent` | `llvm-2.3/ptlsim/mm.cpp:464-486` | cutting whole pages out of an extent removes exactly their chunks and keeps the ends free |
| `ExtentAllocation.ExtentAllocator.ReclaimUnusedExtents` | `llvm-2.3/ptlsim/mm.cpp:426-498` | terminates; the regions handed over are disjoint runs of whole pages which with the remaining free chunks make up the old ones; they are as long as can be; with room left over, no free extent contains a whole page |
| `ExtentAllocation.ExtentAllocator.LargestFreeExtentBytes` | `llvm-2.3/ptlsim/mm.cpp:597-605` | the size of the largest bucket in use, zero when there is no extent |
| `ExtentAllocation.ExtentAllocator.TotalFreeBytes` | `llvm-2.3/ptlsim/mm.cpp:607-625` | the sum over all listed extents always equals the running count of free bytes |
| `ExtentAllocation.ExtentAllocator.CollectExtents` | `llvm-2.3/ptlsim/mm.cpp:547-568` | walking the size buckets lists every extent once and never more than the extent count |
| `ExtentAllocation.ExtentAllocator.FullValidate` | `llvm-2.3/ptlsim/mm.cpp:547-595` | the check for overlapping or touching extents passes in every valid state |
| `SlabAllocation.FreeObjectCount` | `llvm-2.3/ptlsim/mm.cpp:1025-1062` | the free count of a page is full exactly when none of its objects is live, and zero exactly when all are |
| `SlabAllocation.CutPut` | `llvm-2.3/ptlsim/mm.cpp:918-937` | an object given back was not on its page's free list, which therefore had room |
| `SlabAllocation.MovePage` | `llvm-2.3/ptlsim/mm.cpp:836-840` | moving a page between the three lists leaves every page on exactly one list |
| `SlabAllocation.SlabAllocator.AllocFromPage` | `llvm-2.3/ptlsim/mm.cpp:829-852` | hands out the first free object of a page, which was not live, and moves the page to the full list when that was its last |
| `SlabAllocation.SlabAllocator.InitPage` | `llvm-2.3/ptlsim/mm.cpp:878-889` | a new page is cut into as many objects as fit, each free once, listed by address |
| `SlabAllocation.SlabAllocator.AllocNewPage` | `llvm-2.3/ptlsim/mm.cpp:854-892` | sets up a supplied page with all objects free and marks it in the page bitmap |
| `SlabAllocation.SlabAllocator.Alloc` | `llvm-2.3/ptlsim/mm.cpp:894-916` | hands out an object that was not live, from the first partial page, else the first free page, else a new page; all list and counter invariants are kept |
| `SlabAllocation.SlabAllocator.FreeObject` | `llvm-2.3/ptlsim/mm.cpp:918-946` | puts the object on its page's free list as the first, and the page on the list its free count calls for, as the first when it changes lists |
| `SlabAllocation.SlabAllocator.Free` | `llvm-2.3/ptlsim/mm.cpp:918-952` | exactly the object stops being live; at most three pages without live objects remain, and after returning pages exactly one does |
| `SlabAllocation.SlabAllocator.Reclaim` | `llvm-2.3/ptlsim/mm.cpp:954-976` | returns pages without live objects until the limit is met; exactly the pages given up go to the page allocator and off the bitmap; live objects stay |
| `SlabAllocation.SlabAllocator.Validate` | `llvm-2.3/ptlsim/mm.cpp:1025-1062` | the list check passes in every valid state |
| `SlabAllocation.SlabAllocator.ValidatePage` | `llvm-2.3/ptlsim/mm.cpp:746-762` | the free list of a page has the length its header says and aligned objects inside the page |
| `SlabAllocation.SlabAllocator.LiveObjectsApart` | `llvm-2.3/ptlsim/mm.cpp:878-889` | live objects overlap neither each other nor free objects |
| `PageAccounts.ShrinkPool` | `llvm-2.3/ptlsim/mm.cpp:1587-1593` | pages all of whose chunks are free can leave the general pool, and the accounts of the rest stay right |
| `PageAccounts.GrowPool` | `llvm-2.3/ptlsim/mm.cpp:1402` | new pages join the general pool as free chunks, disjoint from all others |
| `PageAccounts.ReclaimMakesProgress` | `llvm-2.3/ptlsim/mm.cpp:1587` | each round of the cleanup loop that hands pages over leaves fewer free chunks |
| `MemoryManagement.MemoryManager.constructor` | `llvm-2.3/ptlsim/mm.cpp:1293-1306` | starts with all heap pages in the page allocator and nothing live |
| `MemoryManagement.MemoryManager.Cleanup` | `llvm-2.3/ptlsim/mm.cpp:1576-1594` | terminates, keeps everything live, and leaves no slab page without live objects and no whole free page in the general pool; doing it again changes nothing |
| `MemoryManagement.MemoryManager.AllocPrivatePages` | `llvm-2.3/ptlsim/mm.cpp:1183-1204` | fails only when no long enough run of pages is free even after the cleanup |
| `MemoryManagement.MemoryManager.SlabAlloc` | `llvm-2.3/ptlsim/mm.cpp:1335-1349` | a new object of one slab allocator, or no page is free at all |
| `MemoryManagement.MemoryManager.LargestFits` | `llvm-2.3/ptlsim/mm.cpp:1374-1387` | a request for the reported largest free extent cannot fail, so that the assertion after it holds |
| `MemoryManagement.MemoryManager.Refill` | `llvm-2.3/ptlsim/mm.cpp:1360-1402` | the general pool gets a free run long enough for the block, or no run of free pages is; it grows by exactly 16 pages, or those the block needs if more, when so many are free in a row |
| `MemoryManagement.MemoryManager.GeneralAlloc` | `llvm-2.3/ptlsim/mm.cpp:1350-1412` | a new block of the rounded size with its size word; after adding storage the retry cannot fail |
| `MemoryManagement.MemoryManager.Alloc` | `llvm-2.3/ptlsim/mm.cpp:1330-1416` | a new, 16-byte aligned, large enough block, from the slab allocators up to 1024 bytes and from the general pool above; exactly that block is added to what its allocator has live, and every other block keeps its allocator and its length; with less than 16 bytes to spare below 1024 bytes and less than 80 above, behind the hidden 16 bytes of the size word; none for zero bytes or when the free pages do not suffice |
| `MemoryManagement.MemoryManager.PointerToSlab` | `llvm-2.3/ptlsim/mm.cpp:813-827` | the page bitmap and page header find the slab allocator of every live object and none for a block of the general pool |
| `MemoryManagement.MemoryManager.Free` | `llvm-2.3/ptlsim/mm.cpp:1509-1533` | every live block goes back to the allocator that issued it, and a general block returns exactly the chunks it was given |
| `MemoryManagement.MemoryManager.LiveBlocksApart` | `llvm-2.3/ptlsim/mm.cpp:1330-1533` | live blocks never overlap |
| `MemoryManagement.MemoryManager.LiveByte` | `llvm-2.3/ptlsim/mm.cpp:1330-1533` | no byte of a live block is in a free page or free chunk, and its page belongs to the issuing allocator |
| `MemoryManagement.MemoryManager.HeapIsConserved` | `llvm-2.3/ptlsim/mm.cpp:1330-1594` | every heap page is free, a slab page or in the general pool, and every chunk of the pool is free or in one live block |
| `MemoryClients.Serve` | `llvm-2.3/ptlsim/mm.cpp:1330-1533` | any sequence of allocations and releases leaves every block live before with its allocator and its length, and the program holds exactly the others |
| `MemoryClients.FreeKeptObject` | `llvm-2.3/ptlsim/mm.cpp:1509-1533` | an object kept since it was issued goes back to the slab allocator that issued it, and nothing else changes |
| `MemoryClients.FreeKeptBlock` | `llvm-2.3/ptlsim/mm.cpp:1509-1533` | a block of the general pool kept since it was issued gives back exactly the chunks it was issued |
| `MemoryClients.UseBlock` | `llvm-2.3/ptlsim/mm.cpp:1330-1533` | whatever is allocated and released between allocation and release of a large block, its release returns exactly its chunks and no other block is touched |
| `MemoryClients.UseObject` | `llvm-2.3/ptlsim/mm.cpp:1330-1533` | the same for a small block: its release takes exactly it from the slab allocator for its size |
| `MissInvariant.ClockInv` | `llvm-2.3/ptlsim/dcache.cpp:145-177` | a clock of both structures keeps the invariant: ready and waiting slots disjoint, and each waiting slot in the map of exactly the one active buffer its link names, which is bound for the data cache and holds its line |
| `MissInvariant.LineMissInv` | `llvm-2.3/ptlsim/dcache.cpp:277-348` | starting or merging a miss keeps the invariant, each active line in one buffer |
| `MissInvariant.LoadMissInv` | `llvm-2.3/ptlsim/dcache.cpp:91-113` | adding a load keeps the invariant; an accepted load becomes pending in a slot linked to the buffer of its line |
| `MissInvariant.ServesBoth` | `llvm-2.3/ptlsim/dcache.cpp:283-296` | the buffer returned for a miss serves the cache that missed |
| `MissInvariant.LoadAccepted` | `llvm-2.3/ptlsim/dcache.cpp:91-113` | a load is taken in exactly when there is a free slot, room by the count, and a buffer, free or waiting for its line already |
| `MissInvariant.AnnulInv` | `llvm-2.3/ptlsim/dcache.cpp:75-85` | cancelling a load keeps the invariant and takes exactly that load from those pending |
| `MissInvariant.RestartInv` | `llvm-2.3/ptlsim/dcache.cpp:46-55` | completing everything keeps the invariant, with no load pending |
| `MissRuns.RunKeepsInv` | `llvm-2.3/ptlsim/dcache.cpp:730-749` | the invariant holds in every state of every run of clocks, misses, cancellations and restarts |
| `MissRuns.LoadsConserved` | `llvm-2.3/ptlsim/dcache.cpp:145-177` | in every run the accepted loads are, with multiplicities, those delivered, those cancelled and those pending: no wakeup is lost or doubled |
| `MissRuns.ArrivesOnTime` | `llvm-2.3/ptlsim/dcache.cpp:373-445` | a load with r clocks to wait becomes ready in exactly the r-th clock, whatever other misses start or merge in between |
| `MissRuns.WaitingHasRank` | `llvm-2.3/ptlsim/dcache.cpp:373-445` | every waiting load has between 1 and 153 clocks to wait |
| `MissRuns.EveryLoadArrives` | `llvm-2.3/ptlsim/dcache.cpp:373-445` | every waiting load becomes ready in a clock fixed beforehand, at most the 153rd, in any run in which it is not cancelled |
| `MissRuns.NewLoadWaits` | `llvm-2.3/ptlsim/dcache.cpp:317-341` | a load whose line no buffer waits for waits for the latency of L2, of L3 and L2, or of memory, L3 and L2, as the caches decide |
| `MissRuns.MergedLoadWaits` | `llvm-2.3/ptlsim/dcache.cpp:283-296` | a load whose line a buffer waits for waits for what is left of that buffer's time |
| `MissRuns.NewLoadArrives` | `llvm-2.3/ptlsim/dcache.cpp:317-445` | a load of a new line is ready in exactly the 5th, 13th or 153rd clock, as the caches decide, in any run in which it is not cancelled |
| `MissRuns.WakesLowest` | `llvm-2.3/ptlsim/dcache.cpp:145-177` | a wakeup hands over the load in the lowest ready slot, and that one only |
| `MissRuns.TwoPerClock` | `llvm-2.3/ptlsim/dcache.cpp:145-177` | a clock hands over two ready loads, or as many as there are |
| `MissRuns.BuffersDrain` | `llvm-2.3/ptlsim/dcache.cpp:373-445` | without new misses all miss buffers are free after the latencies of main memory, L3 and L2 together |
| `MissRuns.QueueDrains` | `llvm-2.3/ptlsim/dcache.cpp:145-177` | without new misses the queue is empty half its size in clocks later |
| `MissRuns.RunLeak` | `llvm-2.3/ptlsim/dcache.h:516-518` | the queue's entry count exceeds the number of its entries by exactly the loads refused for lack of a miss buffer |
| `MissRuns.AssertionFailsExactlyWhen` | `llvm-2.3/ptlsim/dcache.cpp:91-109` | the assertion that the queue has room, made after a free slot was found, fails exactly when at least as many loads were refused as slots are free |
| `MissRuns.AssertionCanFail` | `llvm-2.3/ptlsim/dcache.cpp:109` | a run in which it fails although every slot is free |
| `MissHandling.CacheHierarchy.ClockQueue` | `llvm-2.3/ptlsim/dcache.cpp:145-177` | the wakeup loop performs the queue's clock step |
| `MissHandling.CacheHierarchy.ClockBuffers` | `llvm-2.3/ptlsim/dcache.cpp:373-445` | the pass over the buffers in order, waking loads as it goes, performs one simultaneous step of all buffers |
| `MissHandling.CacheHierarchy.Tock` | `llvm-2.3/ptlsim/dcache.cpp:730-744` | one clock of the hierarchy is the clock step |
| `MissHandling.CacheHierarchy.FindBuffer` | `llvm-2.3/ptlsim/dcache.cpp:264-270` | finds the active buffer of a line, or there is none |
| `MissHandling.CacheHierarchy.InitiateLineMiss` | `llvm-2.3/ptlsim/dcache.cpp:277-348` | starts or merges a miss as the step does |
| `MissHandling.CacheHierarchy.InitiateLoadMiss` | `llvm-2.3/ptlsim/dcache.cpp:91-113` | enters a load in the queue and the buffers as the step does, or reports what stopped it |
| `MissHandling.CacheHierarchy.AnnulLoad` | `llvm-2.3/ptlsim/dcache.cpp:632-634` | cancels a load as the step does |
| `MissHandling.CacheHierarchy.Complete` | `llvm-2.3/ptlsim/dcache.cpp:746-749` | restarts both structures as the step does, leaving lines on their way |
| `StatsStrings.CommutesExactlyWhen` | `llvm-2.3/ptlsim/datastore.cpp:1037-1145` | for every template with distinct names and every record: rebuilding subtracted words gives the difference of the two rebuilt trees, whatever is subtracted, if and only if every string in the record ends before the next number |
| `StatsSubtract.SubtractCommutes` | `llvm-2.3/ptlsim/datastore.cpp:1037-1145` | under that condition on the strings the two agree for every template and subtrahend |
| `StatsStrings.SpillShows` | `llvm-2.3/ptlsim/datastore.cpp:1094-1097` | a string that does not end before the next number makes the two differ for some subtrahend |
| `StatsStrings.DifferenceKeepsTexts` | `llvm-2.3/ptlsim/datastore.h:413-416` | a difference of trees leaves every string as it was |
| `StatsSubtract.SubWordsAgree` | `llvm-2.3/ptlsim/datastore.cpp:1135-1141` | subtraction of records leaves all words of strings alone |
| `StatsTree.Rebuild` | `llvm-2.3/ptlsim/datastore.cpp:1037-1106` | builds the tree of the template from the words at the cursor and moves the cursor by the size of the template |
| `StatsPaths.RebuiltTree` | `llvm-2.3/ptlsim/datastore.cpp:1037-1106` | for every template with distinct names, the node at every path of names holds exactly the words of the part of the template there, with its marks, bounds and labels |
| `StatsPaths.ChildrenAreParts` | `llvm-2.3/ptlsim/datastore.cpp:1042-1049` | a group has a child of a name if and only if it has a part of that name |
| `StatsFileReaders.StoredText` | `llvm-2.3/ptlsim/datastore.cpp:1094-1097` | a null-terminated string in the bytes of a record is read as it was |
| `StatsSubtract.SubWordsAt` | `llvm-2.3/ptlsim/datastore.cpp:1115-1145` | each integer becomes what gives back the old one when the subtrahend is added modulo 2^64; each double what its subtraction gives; strings stay |
| `StatsSubtract.Subtract` | `llvm-2.3/ptlsim/datastore.cpp:1115-1145` | in-place subtraction over the array changes exactly the template's words, to their differences (what is left plus the subtrahend is the old word, modulo 2^64), and moves both cursors by the template's size |
| `StatsSubtract.InsertDifference` | `llvm-2.3/ptlsim/datastore.h:385-440` | inserting the difference of two children under their name keeps the difference of the trees, whatever order the hash table has |
| `StatsRoundTrip.ReadPut` | `llvm-2.3/ptlsim/datastore.cpp:661-845` | reading a written tree followed by any bytes gives back its content by name and leaves exactly those bytes |
| `StatsRoundTrip.ReadWrite` | `llvm-2.3/ptlsim/datastore.cpp:661-845` | reading inverts writing |
| `StatsRoundTrip.TakePutHeader` | `llvm-2.3/ptlsim/datastore.cpp:641-651` | the node header survives the round trip |
| `StatsRoundTrip.TakePutArrayHeader` | `llvm-2.3/ptlsim/datastore.cpp:633-639` | so do the bounds of arrays |
| `StatsRoundTrip.TakePutValue` | `llvm-2.3/ptlsim/datastore.cpp:709-745` | so do the values of every type |
| `StatsRoundTrip.InsertChildren` | `llvm-2.3/ptlsim/datastore.cpp:117-129` | adding a child changes the entry of its name only, wherever the hash table puts it |
| `StatsStream.WriteNode` | `llvm-2.3/ptlsim/datastore.cpp:758-845` | the stream writer appends exactly the bytes of the format |
| `StatsTemplates.TakePutTemplate` | `llvm-2.3/ptlsim/datastore.cpp:981-1030` | reading a written template followed by any bytes gives back the template and leaves exactly those bytes |
| `StatsTemplates.WriteTemplate` | `llvm-2.3/ptlsim/datastore.cpp:981-1001` | the stream writer appends exactly the bytes of the format |
| `StatsTemplates.ReadTemplate` | `llvm-2.3/ptlsim/datastore.cpp:1006-1030` | the stream reader returns what the format says and stops where it says |
| `StatsFiles.OverwrittenKeeps` | `llvm-2.3/ptlsim/datastore.cpp:1194-1208` | writing at a position of a file keeps what is stored before and behind it |
| `StatsFiles.StatsFileWriter.constructor` | `llvm-2.3/ptlsim/datastore.cpp:1150-1170` | a new file holds the template, and the position is the page boundary behind it |
| `StatsFiles.StatsFileWriter.Write` | `llvm-2.3/ptlsim/datastore.cpp:1172-1183` | appends the record, over an index that was flushed there, keeps all others, and notes its name |
| `StatsFiles.StatsFileWriter.Flush` | `llvm-2.3/ptlsim/datastore.cpp:1185-1209` | header, template, all records and all names are then in the file where readers look for them; writing can go on |
| `StatsFileReaders.OpenStored` | `llvm-2.3/ptlsim/datastore.cpp:1239-1297` | opening a flushed file gives the header, the template and the names that were stored |
| `StatsFileReaders.StoredRecord` | `llvm-2.3/ptlsim/datastore.cpp:1299-1304` | a record number finds exactly the record that was written at that position, and any other number finds nothing |
| `StatsFileReaders.StoredDelta` | `llvm-2.3/ptlsim/datastore.cpp:1313-1334` | the difference read from a flushed file is the difference of the trees of the two records as written |
| `StatsFileReaders.UuidsAreFirst` | `llvm-2.3/ptlsim/datastore.cpp:1194-1290` | a name finds no later record than the first one written under it |
| `StatsFileReaders.UuidsAreNamed` | `llvm-2.3/ptlsim/datastore.cpp:1194-1290` | a name finds only a record that was written under it |
| `StatsFileReaders.NextNamed` | `llvm-2.3/ptlsim/datastore.cpp:1172-1183` | writing a named record makes a new name find it, and changes no name that was given before |
| `StatsFiles.HeaderLayout` | `llvm-2.3/ptlsim/datastore.h:603-614` | which words of the file header say what |
| `StatsTemplates.TemplateLayout` | `llvm-2.3/ptlsim/datastore.h:485-500` | at which bytes of a written template its fields are, and what they say |
| `StatsRoundTrip.NodeLayout` | `llvm-2.3/ptlsim/datastore.cpp:641-651` | at which bytes of a written node the fields of its header are, and what they say |
| `StatsFileReaders.DecimalNames` | `llvm-2.3/ptlsim/datastore.cpp:1336-1346` | the decimal name of a record says its number |
| `StatsFileReaders.StatsFileReader.Open` | `llvm-2.3/ptlsim/datastore.cpp:1239-1297` | succeeds exactly when header, template and index can be read, with their contents |
| `StatsFileReaders.StatsFileReader.Get` | `llvm-2.3/ptlsim/datastore.cpp:1299-1311` | the tree of a record, none exactly when the record is not in the file |
| `StatsFileReaders.StatsFileReader.GetDelta` | `llvm-2.3/ptlsim/datastore.cpp:1313-1334` | the tree of the subtracted records, none exactly when either is not in the file |
| `StatsFileReaders.StatsFileReader.UuidOfName` | `llvm-2.3/ptlsim/datastore.cpp:1336-1354` | a name of digits is a number, others are looked up; numbers that are negative in 64 bits are none |
| `StatsStream.ReadNode` | `llvm-2.3/ptlsim/datastore.cpp:661-756` | the stream reader returns what the format says and stops where it says, or fails where it says |
| `FixedQueues.FixedQueue.Alloc` | `llvm-2.3/ptlsim/logic.h:127-141` | pushing at the tail of the circular buffer is appending, unless all slots but one are used |
| `FixedQueues.FixedQueue.Pop` | `llvm-2.3/ptlsim/logic.h:166-171` | popping at the tail takes the last element off |
| `FixedQueues.FixedQueue.Dequeue` | `llvm-2.3/ptlsim/logic.h:179-204` | taking from the head takes the first element off |
| `FixedQueues.FixedQueue.PushHead` | `llvm-2.3/ptlsim/logic.h:191-196` | pushing at the head puts an element in front |
| `FixedQueues.FixedQueue.Forward` | `llvm-2.3/ptlsim/logic.h:77-78` | walking from head to tail visits the queued elements in order, and ends |
| `ReturnAddressStacks.ReturnAddressStack.Push` | `llvm-2.3/ptlsim/branchpred.cpp:90-115` | pushes, dropping the oldest entry when full, and hands back what the slot held |
| `ReturnAddressStacks.ReturnAddressStack.Pop` | `llvm-2.3/ptlsim/branchpred.cpp:117-140` | pops the latest entry, or gives a zero entry when empty |
| `ReturnAddressStacks.ReturnAddressStack.Peek` | `llvm-2.3/ptlsim/branchpred.cpp:142-156` | the latest return address, zero when empty |
| `ReturnAddressStacks.ReturnAddressStack.AnnulPush` | `llvm-2.3/ptlsim/branchpred.cpp:161-185` | pops and puts back what the slot held |
| `ReturnAddressStacks.ReturnAddressStack.PushThenAnnul` | `llvm-2.3/ptlsim/branchpred.cpp:90-185` | undoing a push right after it restores every slot of the buffer |
| `ReturnAddressStacks.ReturnAddressStack.AnnulPop` | `llvm-2.3/ptlsim/branchpred.cpp:190-209` | pushes the popped entry again unless the stack is full |
| `ReturnAddressStacks.ReturnAddressStack.UpdateRas` | `llvm-2.3/ptlsim/branchpred.cpp:235-243` | enters a return, else a call, and records how to undo it |
| `ReturnAddressStacks.ReturnAddressStack.AnnulRas` | `llvm-2.3/ptlsim/branchpred.cpp:382-389` | undoes one recorded change |
| `ReturnAddressStacks.UndoKeepsTop` | `llvm-2.3/ptlsim/branchpred.cpp:235-243` | undoing any calls and returns that never underflowed leaves exactly a top portion of the stack: all but as many oldest entries as overflows dropped, or as the calls never went below |
| `ReturnAddressStacks.UndoRestores` | `llvm-2.3/ptlsim/branchpred.cpp:382-389` | undoing restores the stack if and only if nothing overflowed or everything was returned from at some point |
| `ReturnAddressStacks.UnderflowsLeaveBogus` | `llvm-2.3/ptlsim/branchpred.cpp:117-209` | while the stack has room, undoing leaves the original stack on top of exactly one zero entry for each return that underflowed |
| `ReturnAddressStacks.UndoRestoresWithRoom` | `llvm-2.3/ptlsim/branchpred.cpp:117-209` | with that room, undoing restores the stack if and only if no return underflowed |
| `ReturnAddressStacks.UndoRestoresExactly` | `llvm-2.3/ptlsim/branchpred.cpp:90-209` | for any calls and returns, with overflow and underflow and without room: undoing restores the stack if and only if nothing is lost, or before the first loss the stack is empty at a moment to which undoing comes back with an empty stack; the kinds of the branches decide this |
| `ReturnAddressStacks.UnderflowCanRecover` | `llvm-2.3/ptlsim/branchpred.cpp:117-209` | with room for one entry, a call and two returns are undone although the second return underflows |
| `UopBlocks.ExtendedIsBracketed` | `llvm-2.3/ptlsim/decode-core.cpp:554-640` | adding an instruction's uops keeps the block a sequence of start-to-end groups |
| `UopBlocks.JoinedIsBracketed` | `llvm-2.3/ptlsim/decode-core.cpp:535-550` | so does reopening the last instruction and joining uops to it |
| `UopBlocks.JoinedSums` | `llvm-2.3/ptlsim/decode-core.cpp:535-640` | joining changes neither the number of instructions nor the sum of their lengths |
| `UopBlocks.JoinedFlags` | `llvm-2.3/ptlsim/decode-core.cpp:535-616` | a uop marked as the final flags of its instruction is the last of it that sets all flags |
| `UopBlocks.MemoryUopsAre` | `llvm-2.3/ptlsim/decode-core.cpp:618-624` | the count of memory uops is the number of loads and stores |
| `TraceDecoding.LastIsAtomicMeans` | `llvm-2.3/ptlsim/decode-core.cpp:504-505` | the mark of an atomic flag update says that the last uop to set flags set all of them |
| `TraceDecoding.BasicBlock.Reopen` | `llvm-2.3/ptlsim/decode-core.cpp:535-550` | the backward walk takes the end and flag marks off exactly the uops of the last instruction |
| `TraceDecoding.BasicBlock.Append` | `llvm-2.3/ptlsim/decode-core.cpp:584-631` | enters the buffered uops with their marks and counts them |
| `TraceDecoding.TraceDecoder.Put` | `llvm-2.3/ptlsim/decode-core.cpp:500-506` | appends a uop to the buffer and notes whether the last flag update was of all flags |
| `TraceDecoding.TraceDecoder.Split` | `llvm-2.3/ptlsim/decode-core.cpp:1330-1350` | buffers the end of a block, aimed after or at the start of the current instruction |
| `TraceDecoding.TraceDecoder.Flush` | `llvm-2.3/ptlsim/decode-core.cpp:508-645` | enters the buffer as an instruction, or joined to the last one, or drops it and closes the block before it when it does not fit; the block stays below its limit in all cases |
| `TraceDecoding.TraceDecoder.Translate` | `llvm-2.3/ptlsim/decode-core.cpp:1849-1992` | the block is closed before the instruction exactly if that must be the first of a block and is not, or does not fit; after it exactly if it ends a block or the instructions or bytes reach their limit; the block is what it was plus the instruction and the end that calls for, or plus a branch to the instruction |
| `TraceDecoding.TraceDecoder.Build` | `llvm-2.3/ptlsim/decode-core.cpp:2047-2050` | a block consists of the uops of the first k instructions of the stream, in order and without a gap, and possibly a branch to the one after them; it has at most 60 instructions and fewer than 63 uops, its counts are right, each group of uops from a start mark to an end mark is exactly one instruction with its length and its final flags marked; k is decided by the stream: no instruction but the last gives a reason to stop, and the last one or the one after it does; and the targets of the block are those of its last branch |
| `VectorMatching.SumNothing` | `llvm-2.3/ptlsim/logic.h:531-545` | a chunk without a match leaves the running sum of absolute differences unchanged |
| `VectorMatching.SumOne` | `llvm-2.3/ptlsim/logic.h:531-545` | the first chunk with a match makes the sum the number of the slot |
| `VectorMatching.VectorTags.Match` | `llvm-2.3/ptlsim/logic.h:531-558` | the sliced vector search returns the slot whose tag equals the target, and none if and only if there is none, for unique tags and a target other than the invalid one |
| `VectorMatching.VectorTags.Update` | `llvm-2.3/ptlsim/logic.h:568-579` | writing a tag keeps slices, padding and scalar copy in agreement |
| `VectorMatching.VectorTags.Select` | `llvm-2.3/ptlsim/logic.h:675-689` | finds a tag, or puts it in the first slot not recently used, keeps tags unique, and marks exactly the slot as used, clearing the others when all would be marked |
| `VectorMatching.UsedLeavesRoom` | `llvm-2.3/ptlsim/logic.h:659-666` | of several slots one is always left unmarked, and other marks are only cleared when there would be none |
| `VectorMatching.SameTag` | `llvm-2.3/ptlsim/dcache.h:411-413` | tags are the same if and only if thread and page number are |
| `VectorMatching.TranslationLookasideBuffer.Probe` | `llvm-2.3/ptlsim/dcache.h:415-418` | a probe hits if and only if the page number of the address is held for the thread |
| `VectorMatching.TranslationLookasideBuffer.Insert` | `llvm-2.3/ptlsim/dcache.h:420-432` | enters the page for the thread, no other, and evicts at most one |
| `VectorMatching.TranslationLookasideBuffer.FlushThread` | `llvm-2.3/ptlsim/dcache.h:439-446` | drops exactly the pages of the thread and counts them |
| `VectorMatching.TranslationLookasideBuffer.FlushThenProbe` | `llvm-2.3/ptlsim/dcache.h:439-446` | after a flush every probe of that thread misses, and no other thread's result changes |
| `VectorMatching.TranslationLookasideBuffer.FlushVirt` | `llvm-2.3/ptlsim/dcache.h:448-450` | drops exactly one page of one thread |
| `AssociativeArrays.SumIsLookup` | `llvm-2.3/ptlsim/logic.h:380-394` | adding up the numbers of the matching ways finds a tag if and only if at most one way matches |
| `AssociativeArrays.SameLine` | `llvm-2.3/ptlsim/logic.h:845-847` | two addresses have the same tag if and only if they are on the same line |
| `AssociativeArrays.NextLine` | `llvm-2.3/ptlsim/logic.h:841-843` | lines that follow each other belong to sets that follow each other |
| `AssociativeArrays.InvalidFindsOther` | `llvm-2.3/ptlsim/logic.h:387-394` | with two unused ways the search for the invalid tag can give a way with another tag |
| `AssociativeArrays.FullyAssociativeTags.Match` | `llvm-2.3/ptlsim/logic.h:387-394` | the search loop computes that sum, and hence the way of any tag but the invalid one |
| `AssociativeArrays.FullyAssociativeTags.Select` | `llvm-2.3/ptlsim/logic.h:404-418` | keeps tags unique; a miss evicts a way used since the marks were cleared only when all were |
| `AssociativeArrays.FullyAssociativeArray.Store` | `llvm-2.3/ptlsim/logic.h:754-768` | selecting a line and writing it gives that tag the new contents, drops the evicted one and keeps all others |
| `AssociativeArrays.FullyAssociativeArray.Probe` | `llvm-2.3/ptlsim/logic.h:748-752` | finds the contents under a tag, or there are none |
| `AssociativeArrays.AssociativeArray.Probe` | `llvm-2.3/ptlsim/logic.h:841-851` | finds the line of an address, which is only ever in the set the address selects |
| `AssociativeArrays.AssociativeArray.Store` | `llvm-2.3/ptlsim/logic.h:841-860` | the array is a lossy cache: it holds what was last stored, and loses at most the evicted line |
| `AssociativeArrays.AssociativeArray.Invalidate` | `llvm-2.3/ptlsim/logic.h:862-864` | drops exactly the line of the address |
| `BranchTargets.BranchTargetBuffer.Probe` | `llvm-2.3/ptlsim/branchpred.cpp:290-295` | every hit gives the target of the latest taken update of that branch |
| `BranchTargets.BranchTargetBuffer.PredictJump` | `llvm-2.3/ptlsim/branchpred.cpp:290-295` | a jump is predicted to that target, or to the given one on a miss |
| `BranchTargets.BranchTargetBuffer.Update` | `llvm-2.3/ptlsim/branchpred.cpp:303-374` | a taken branch that is not an indirect return is entered; nothing else changes the buffer |
| `PageBitmaps.BitOfWithBit` | `llvm-2.3/ptlsim/kernel.cpp:264` | setting or clearing a bit changes that bit only |
| `PageBitmaps.PageBitmap.PageIdToMapByte` | `llvm-2.3/ptlsim/kernel.cpp:237-251` | allocating a leaf on demand changes no page |
| `PageBitmaps.PageBitmap.SetPage` | `llvm-2.3/ptlsim/kernel.h:152-158` | adds or removes exactly one page |
| `PageBitmaps.PageBitmap.SetPages` | `llvm-2.3/ptlsim/kernel.cpp:253-279` | adds or removes exactly the pages of a range |
| `PageBitmaps.AddressSpace.SetAttr` | `llvm-2.3/ptlsim/kernel.cpp:328-350` | after any sequence of calls each page has the protection of the last call covering it |
| `PageBitmaps.AddressSpace.GetAttr` | `llvm-2.3/ptlsim/kernel.cpp:352-363` | the protection of the last call covering the page |
| `PageBitmaps.AddressSpace.CheckMeans` | `llvm-2.3/ptlsim/kernel.h:181-214` | an access check passes exactly when the address has 48 bits and the last call covering its page allowed the access |
| `UserMemory.Context.AccessMeans` | `llvm-2.3/ptlsim/kernel.h:261-329` | which bytes are readable, writable and fetchable follows from the last call covering their page |
| `UserMemory.Context.WritablePages` | `llvm-2.3/ptlsim/kernel.h:303-329` | a run of at most a page of bytes is writable exactly when its first byte and the first byte on its second page are |
| `UserMemory.Context.CopyToUser` | `llvm-2.3/ptlsim/kernel.h:301-337` | writes all bytes if all may be written and none otherwise; says which pages are marked dirty, which address faults, and what count is returned |
| `UserMemory.Context.CopyFromUser` | `llvm-2.3/ptlsim/kernel.h:261-299` | reads the longest accessible prefix; the byte after it is the one that faults |
| `UserMemory.Context.WriteThenRead` | `llvm-2.3/ptlsim/kernel.h:261-337` | bytes that could all be written are what is read back, as far as they may be read |
| `BasicBlockCaching.CrossingTest` | `llvm-2.3/ptlsim/decode-core.cpp:1396` | the shifted sum says whether the code goes on in the next page |
| `Buckets.XorBits` | `llvm-2.3/ptlsim/globals.h:411-425` | the bits of the exclusive or |
| `BasicBlockCaching.SmallKeySlots` | `llvm-2.3/ptlsim/decode.h:493-500` | the slot of a block follows from its address and its page |
| `Buckets.LongerKey` | `llvm-2.3/ptlsim/globals.h:411-425` | hashing folds the next digit of a longer key in by an exclusive or |
| `BasicBlockCaching.BasicBlockCache.Get` | `llvm-2.3/ptlsim/decode-core.cpp:2029` | finds the cached block of a key, or there is none |
| `BasicBlockCaching.BasicBlockCache.Translate` | `llvm-2.3/ptlsim/decode-core.cpp:2011-2123` | enters a new block in the hash table and on the lists of its one or two pages, and a cached one is returned unchanged |
| `BasicBlockCaching.BasicBlockCache.OnItsPages` | `llvm-2.3/ptlsim/decode-core.cpp:2070-2108` | a cached block is on the list of its low page, which exists, and on that of its high page exactly if it crosses into it |
| `BasicBlockCaching.BasicBlockCache.Invalidate` | `llvm-2.3/ptlsim/decode-core.cpp:1379-1410` | takes exactly one unreferenced block out of the table and off its lists; a referenced one stays |
| `BasicBlockCaching.BasicBlockCache.InvalidateKey` | `llvm-2.3/ptlsim/decode-core.cpp:1412-1416` | takes out the block of a key if it is unreferenced |
| `BasicBlockCaching.BasicBlockCache.InvalidatePage` | `llvm-2.3/ptlsim/decode-core.cpp:1436-1473` | succeeds exactly when the page has a list and none of its blocks is referenced, and then no cached block is on the page; other blocks stay in any case |
| `BasicBlockCaching.BasicBlockCache.Scan` | `llvm-2.3/ptlsim/decode-core.cpp:1494-1508` | walking the table counts every block once and adds up the times of last use |
| `BasicBlockCaching.BasicBlockCache.ReclaimOlder` | `llvm-2.3/ptlsim/decode-core.cpp:1531-1554` | walking the table while removing from it removes exactly the unreferenced blocks up to the threshold |
| `BasicBlockCaching.BasicBlockCache.Reclaim` | `llvm-2.3/ptlsim/decode-core.cpp:1480-1591` | keeps exactly the blocks that are referenced or newer than the average, and no empty page list that nobody holds |
| `BasicBlockCaching.ReclaimMakesProgress` | `llvm-2.3/ptlsim/decode-core.cpp:1509-1548` | when nothing is referenced, reclaiming a nonempty cache removes at least one block, and all of them in an emergency |
| `BasicBlockCaching.KeptExactly` | `llvm-2.3/ptlsim/decode-core.cpp:1509-1548` | a block stays if and only if it is referenced or, short of an emergency, newer than the average |
| `BasicBlockCaching.BasicBlockCache.Flush` | `llvm-2.3/ptlsim/decode-core.cpp:1598-1629` | empties an unreferenced cache and leaves no page list with entries |

## Left out

Memory manager:

- MemoryManagement.MemoryManager.Alloc: models the bare-machine configuration, where the page allocator supplies all pages; with an operating system below, `mmap` does. Reclaim handlers registered by other components are not called.
- MemoryManagement.MemoryManager.Free: the argument is a live block; the code reads the size word in front of any pointer it is given, null included.
- ExtentAllocation.ExtentAllocator.Free: overflow of `int remaining_size` and of the rounding up of sizes near the end of the address space are not modelled; addresses are unbounded except in the reclaim search.
- ExtentAllocation.ExtentAllocator.LargestFreeExtentBytes: for extents in the last size bucket it reports only the lower bound, as the code does.
- SlabAllocation.SlabAllocator.Alloc: the magic word of page headers and the byte and peak counters are not modelled; the page is requested by the memory manager beforehand.
- Links are sequences: pointer punning in the list heads and the placement of extent headers inside free storage are not captured.
- `fast_validate`, statistics counters, event logging, `ptl_mm_getsize`, `ptl_mm_try_alloc` and `ptl_mm_alloc_aligned`.

Miss handling:

- MissHandling.CacheHierarchy.InitiateLoadMiss: cache contents are inputs (whether a line is in L2 or L3); the data, mask, thread and reorder buffer numbers of a request are not modelled.
- Completion of one thread only: the code clears a buffer's map before testing it (`dcache.cpp:226-242`).
- The instruction cache callback, prefetching and the caches' own data.

Statistics:

- StatsSubtract.SubtractCommutes: subtraction of doubles is an arbitrary function on words; templates with counts of at least one, scalar strings and string limits that are multiples of eight.
- StatsRoundTrip.ReadWrite: names up to 255 and strings up to 65535 bytes without nulls, distinct names of children, counts from one; bounds of scalars and labels of unlabeled nodes are not stored. Padding of headers is written as zero.
- StatsStream.ReadNode: nodes are values, and end of input is a failure; the hash table of children is an arbitrary assignment of names to buckets.
- StatsStrings.CommutesExactlyWhen: double subtraction is among what the condition ranges over; for one fixed way of subtracting doubles a string that runs into a double may be unharmed.
- StatsTemplates.TakeTemplate: arrays of strings, string limits that are no multiple of eight and unknown types fail at once, where the code stops on an assertion when it uses them; parts of templates that are no groups are dropped, as they are never used.
- StatsFileReaders.OpenStored: names shorter than 65535 bytes and a file that 64 bits can address. Buffers behind streams are not modelled; seeking is a new stream at the position.
- StatsFileReaders.StatsFileReader.Get: the record size is at least that of the template; strings stop at the end of the record at the latest.
- Totals and caches of subtrees, and printing.

Branch prediction and tags:

- ReturnAddressStacks.UndoRestoresExactly: that a stack which does not recover differs from the original is stated for entries that differ from each other and from zero, as uop numbers make them.
- ReturnAddressStacks.ReturnAddressStack.UpdateRas: the index field of an entry, which equals its slot, is not modelled.
- VectorMatching.VectorTags.Update: the valid bits are not modelled (invalidating a slot sets its bit again), nor insertion through them.
- VectorMatching.TranslationLookasideBuffer.Insert: what it returns compares with an uninitialised variable on a hit, and is left out.
- BranchTargets.BranchTargetBuffer.Update: branch addresses other than the all-ones invalid tag; direction prediction is left out.
- Lockable and commit/rollback associative arrays, and byte-valid masks of cache lines.

Basic blocks and pages:

- TraceDecoding.BasicBlock.Append: the marks of the final writer of each register, the mask of used registers, and the kind of branch that ends the block are not modelled.
- TraceDecoding.TraceDecoder.Translate: the decoding of instructions is an input (the uops, the length, and whether they end or must start a block); every instruction has a uop and fits the buffer with the end of a block. Register use masks, opcode types of branches, and partially emitted invalid instructions are left out.
- BasicBlockCaching.BasicBlockCache.Translate: page lists are a map of sequences, so that locators, chunks of lists and reading a chunk just released are not captured; the block's two pages differ if it crosses; reference counts of page lists are not changed in between.
- BasicBlockCaching.BasicBlockCache.Reclaim: the sum of times is unbounded, whereas the code adds 64-bit words.
- PageBitmaps.PageBitmap.PageIdToMapByte: leaves are values in the top-level array, so that their storage is not captured.
- UserMemory.Context.CopyToUser: at most 4096 bytes, as on two pages.
- System calls, the other shadow maps (which are bitmaps of the same kind), and the 32-bit variant.
