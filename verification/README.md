# Masika memory and scheduling core

A Dafny model of the part of the Masika kernel that hands out frames, pages, addresses and the processor:
page tables (`src/arch/paging.rs`), the physical frame bitmap (`src/memory/physical.rs`), the two shared page
allocators (`src/syscall/core.rs`), the round-robin scheduler (`src/scheduler/scheduler.rs`), the virtual memory
manager (`src/memory/virtual.rs`) and the kernel heap (`src/memory/heap.rs`).

Objects that the kernel updates in place are classes here (`PageTables`, two `Manager` classes, `Scheduler`,
`KernelAllocator`). Each of their methods is tied to a function on values, and the laws are proved about those
functions over every run. The two lock-based allocators are state machines whose steps are single atomic accesses of
any number of threads.

## Main results

- **Page tables refine a flat map.** Over every sequence of map, unmap, flag and mark operations, `translate` and
  `get_page_flags` answer as a plain map from page number to frame and flags would (`FlatPaging.RunRefinesFlat`); no
  table is reachable by two paths (`FlatPaging.RunAliasFree`). In terms of the calls alone: an address translates exactly
  when its page was mapped and not unmapped since, to the physical page of the last map and its own offset
  (`PagingHistory.RunTranslates`), and the flags are those last given with the marks made since
  (`PagingHistory.RunFlags`).
- **The frame bitmap is a set with exact accounts.** Every operation is specified on the set of used and reserved
  frames, with failure exactly when no frame or run exists, and bit for bit restoration by the inverse operations.
- **Shared allocators.** Over every interleaving, the page allocator behaves as a sequential one, never answers an address
  twice without its successful return in between (`PageAddresses.NoAddressTwice`), and accepts a return exactly of an
  address that is held (`PageAddresses.FreeOkIffHeld`). The bump allocator hands out disjoint regions as long as each value stored by `set_current` is safe, and
  a value is harmless if and only if it is safe (`BumpRegions.StoreSafeIff`).
- **Scheduler.** The task count is exact in every run, whatever the callers pass, and ids are unique throughout a run if
  and only if each id was unqueued when it was queued (`QueueIds.RunUniqueIff`). With fresh ids and no second running
  task added, at most the current task runs. For any state and each outcome, `schedule` has one effect on the lock, the
  current task and every block (`QueueEffects.ScheduleEffect`). A ready task is always reached if and only if the queue layout satisfies a
  condition on ids and slots (`Fairness.FairIff`).
- **Virtual memory.** `mmap` succeeds exactly when a frame is granted for each page and each missing table, and then every
  page has its own frame and the protection asked for (`VirtualGrants.MmapExact`); `munmap` undoes it. The free-range search is first fit, and the page counter is exactly the
  used entries of all levels plus the overwriting maps. In every run of `mmap` and `munmap` no two pages share a frame
  and no page shows a table (`VirtualFrames.MappedFramesDiffer`).
- **Heap.** The free lists are records in memory. Memory holds the list with a new block if and only if the block's
  record meets no record of another free block (`FreeRecords.InsertHoldsIff`). Over every run that writes over no such
  record, bytes are conserved up to 32 for each unsplit block, every block is in its size class, every search ends
  and is complete, and a pointer answered starts a free block with at least the bytes requested
  (`HeapMemory.RunServes`); and when all memory is supplied at multiples of 2^a, the alignment 2^e is always honoured if and
  only if e is at most a and at most 6.

## Properties that do not hold as one would expect

Each has a lemma or contract with the exact condition.

- Freeing a reserved frame breaks the counters: `free_frame` keeps the account exactly when the frame is not reserved.
- `alloc_frames_contiguous` panics (a subtraction below zero) exactly for a count of at least two above the number of frames.
- `is_bitmap_full` answers yes exactly when all frames are taken and their number is a multiple of 64.
- The mask of `addr` keeps bits 4 to 11, so it returns the page-aligned part of an entry exactly when those bits are
  clear. A table pointer reads back exactly when it is 16-byte aligned and below 2^48, and survives the accessed bit
  exactly when it has that bit itself.
- A weak compare-and-swap may fail spuriously, and `allocate_page` then spends a search round: it returns nothing
  exactly when the failures use up the rounds before the first free page of the search.
- The bump allocator keeps its regions inside the bounds, and apart under safe stores, exactly when the end is below the
  largest `usize`, the value to which `new` saturates.
- `set_current` makes a later allocation overlap exactly when a region already handed out meets the whole pages from the
  stored value to the end.
- `create_task` does not look whether its id is queued: ids stay unique exactly when it is not.
  After a first task of id 1, the first created task has id 1 as well (`QueueIds.DuplicateAfterBoot`).
- `find_next_task` starts after the current task's id, not its slot, so some layouts starve a ready task for ever: after
  one `init_scheduler` with an id other than 1 and one `create_task`, exactly when that id is no multiple of the length
  (`Fairness.TwoTasksFairIff`).
- The rest of a split block may be written over the record of another free block. Two runs with page-aligned memory and
  matching layouts show the account broken both ways, with a block in the wrong list
  (`HeapOverwrite.OverwriteBreaksAccount`); the account holds over every run whose writes are clear.
- Freeing reserved frames can wrap the used counter; `get_free_frames` aborts exactly when one has wrapped, and is right
  otherwise.
- `init` of the heap keeps the byte account exactly when the heap held nothing; a split puts the rest of the block
  24 bytes further for each byte requested, so inside the block only for an empty request.

## Modelling decisions

- A table address is a 64-bit vector. `map_page` boxes a `PageTable` without an alignment attribute, so a new table is
  only taken to lie at a multiple of 16 below 2^48, the addresses whose pointers read back; new tables are distinct
  from those in use and do not overlap them. Their addresses are parameters. The walk modelled is the one the kernel
  code makes. Layout and flag bits follow section 4.5 of the Intel 64 and
  IA-32 Architectures Software Developer's Manual, Volume 3A.
- Virtual addresses are natural numbers; only the 48 translated bits matter to the tables.
- The frames that `alloc_pages` gives to the virtual memory manager arrive as a sequence of answers. They are distinct
  from the tables in use and zeroed. The `PageEntry` type used by `src/memory/virtual.rs` is not part of the repository and is
  modelled by what the code does with it; every entry that `map_page` writes counts as used, also one with address 0 and
  flags 0, which a real entry type might not tell from an unused one.
- Process control blocks live in a table and the queue holds their indices, as the source holds pointers.
- Memory is sequentially consistent.
- Arithmetic is that of a build with overflow checks, as the `dev` profile has; the `release` profile of the repository
  does not enable them, and there the operations that stop here go on with wrapped values. An overflow that stops the
  kernel is an explicit outcome (`Panicked`, an absent result, or a count of rounds done) where the model distinguishes
  it, and is left out below elsewhere.
- A free block record occupies 24 bytes. Writing a record destroys the records it shares a byte with, and so does what a
  program writes into its block; bytes that hold no record read as zero. A walk that visits more records than memory
  holds never ends (`FreeRecords.LoopsForever`).
- Ghost fields such as `live`, `waste`, `overwrites` and `log` record history for the laws; the kernel stores none of them.

## Model

| member | source | states |
|---|---|---|
| `VirtualAddress.PathIsPage` | src/arch/paging.rs:178-186 | two addresses use the same four table indices exactly when they lie in the same page |
| `VirtualAddress.PageDigits` | src/arch/paging.rs:178-182 | the four table indices are the base-512 digits of the page number, the highest first |
| `VirtualAddress.PagesDistinct` | src/arch/paging.rs:356-363 | the pages of a range shorter than the address space are pairwise different |
| `PageEntry.LinkReadsBack` | src/arch/paging.rs:76-82 | a linked entry is present, and its address reads back if and only if the table is 16-byte aligned and below 2^48 |
| `PageEntry.AddrExactIff` | src/arch/paging.rs:76-78 | the masked address equals the page-aligned one exactly when bits 4 to 11 are clear |
| `PageEntry.AccessedBreaksAddr` | src/arch/paging.rs:104-106 | with the accessed bit set, an entry that links a table reads back its address if and only if the address has bit 5 itself |
| `PageEntry.PlainLink` | src/arch/paging.rs:80-90 | linking from an empty entry leaves a table address with exactly the present and writable bits |
| `PageOffset.JoinParts` | src/arch/paging.rs:285-285 | joined to a page-aligned word, an address gives its offset in the page as the low twelve bits, as a number, and leaves the others |
| `PageTree.ReachedIsOwned` | src/arch/paging.rs:254-287 | a walk of at most three levels arrives at a table of the tree whose owner path is the walk |
| `PageTree.AliasFree` | src/arch/paging.rs:178-220 | every table is reached by one path and only one |
| `PageTree.EnsureKeeps` | src/arch/paging.rs:178-215 | creating a missing table keeps the tree sound and changes no leaf entry |
| `PageTree.WriteLeaf` | src/arch/paging.rs:216-220 | writing a leaf keeps the tree sound and changes the entry of that path only |
| `PageTree.ReachThree` | src/arch/paging.rs:254-287 | the walk by levels: each step follows the entry of the previous table, and a missing level ends it |
| `Paging.DescendKeeps` | src/arch/paging.rs:178-215 | the descent of `map_page` ends in the table of the page's first three indices, with every leaf unchanged |
| `Paging.StepLeaf` | src/arch/paging.rs:178-252 | an operation keeps the tree sound and rewrites the leaf entry of its own page only |
| `Paging.StepPlain` | src/arch/paging.rs:178-252 | an operation leaves only plain entries in the upper tables |
| `FlatPaging.DecodeApply` | src/arch/paging.rs:120-126 | what an operation does to the bits of an entry is what it does to the pair of frame and flags |
| `FlatPaging.StepAgrees` | src/arch/paging.rs:178-252 | one operation on the tables matches one on the flat map, for every page |
| `FlatPaging.RunAgrees` | src/arch/paging.rs:178-252 | the tables agree with the flat map after any permitted sequence of operations |
| `FlatPaging.RunRefinesFlat` | src/arch/paging.rs:254-287 | from empty tables, after any run, translation and flags are those of the flat map |
| `PagingHistory.RunTranslates` | src/arch/paging.rs:254-287 | after any run an address translates exactly when some call mapped its page and the mapping was spared since; the answer is the page of the physical address given in that call with the offset of the address |
| `PagingHistory.RunFlags` | src/arch/paging.rs:401-426 | after any run the flags of a mapped page are the low twelve bits that the last `map_page` or `set_page_flags` on it gave, with the accessed and dirty bits raised by marks since, and an unmapped page has none |
| `PagingHistory.SourceExists` | src/arch/paging.rs:428-454 | every mapped page has a call that last gave it flags, the mapping call or a later one |
| `FlatPaging.RunAliasFree` | src/arch/paging.rs:178-220 | after any run every table has exactly one path, and every present upper entry leads to a table of the tree |
| `FlatPaging.RunUpperEntries` | src/arch/paging.rs:178-220 | after any run an upper entry is empty or the address of a table of the tree with flags 3 |
| `FlatPaging.RemapIsMap` | src/arch/paging.rs:468-471 | unmapping and mapping a page has the effect of mapping it |
| `PageRange.MapRangeFlat` | src/arch/paging.rs:356-363 | after any number of rounds of `map_range` each page visited has the frame and flags of its last visit, and every other page what it had |
| `PageRange.UnmapRangeFlat` | src/arch/paging.rs:365-371 | after any number of rounds of `unmap_range` the visited pages are absent and the others unchanged |
| `PageRange.PagesInOrder` | src/arch/paging.rs:356-363 | without wrap-around, round `i` visits the page `i` after the first |
| `PageRange.MapRangeTranslates` | src/arch/paging.rs:356-363 | after any number of rounds of `map_range` every address visited translates to the physical page of its last visit with its own offset, every other as before |
| `PageRange.PhysAdvances` | src/arch/paging.rs:356-363 | round 0 maps the physical address given, and each round the next page |
| `PageRange.RoundsDoneIff` | src/arch/paging.rs:356-371 | a round is done exactly when rounding the size does not overflow, the size reaches it and both its addresses fit 64 bits |
| `PageRange.UnmapRangeUndoes` | src/arch/paging.rs:365-371 | as many rounds of `unmap_range` as of `map_range` on absent pages restore the flat map |
| `KernelPaging.PageTables.constructor` | src/arch/paging.rs:178-186 | an empty root table |
| `KernelPaging.PageTables.EnterTable` | src/arch/paging.rs:178-215 | one level of the descent in memory: the table below, created when missing |
| `KernelPaging.PageTables.Walk` | src/arch/paging.rs:222-245 | the read-only walk finds the leaf table exactly when the tree has it |
| `KernelPaging.PageTables.MapPage` | src/arch/paging.rs:178-220 | the tables in memory become those of the map step |
| `KernelPaging.PageTables.UnmapPage` | src/arch/paging.rs:222-252 | the tables in memory become those of the unmap step; nothing is allocated |
| `KernelPaging.PageTables.TranslateVirtToPhys` | src/arch/paging.rs:254-287 | the answer is the translation of the tree |
| `KernelPaging.PageTables.GetPageFlags` | src/arch/paging.rs:401-426 | the answer is the flags of the page, if it is present |
| `KernelPaging.PageTables.SetPageFlags` | src/arch/paging.rs:428-454 | the flags of a present page are replaced; an absent page is left alone |
| `KernelPaging.PageTables.RemapPage` | src/arch/paging.rs:468-471 | the run of an unmap and a map |
| `KernelPaging.PageTables.MarkPageAccessed` | src/arch/paging.rs:487-512 | the accessed bit of a present page is raised |
| `KernelPaging.PageTables.MarkPageDirty` | src/arch/paging.rs:514-539 | the dirty bit of a present page is raised |
| `KernelPaging.PageTables.MapRange` | src/arch/paging.rs:356-363 | the loop is the run of one map for each round until rounding the size or an address overflows; how many rounds are done |
| `KernelPaging.PageTables.UnmapRange` | src/arch/paging.rs:365-371 | the loop is the run of one unmap for each round until rounding the size or an address overflows; how many rounds are done |
| `Bits.TrailingZerosIsLowest` | src/memory/physical.rs:72-76 | the trailing zeros of a non-zero word name its lowest set bit |
| `Bitmap.WordScan` | src/memory/physical.rs:64-82 | the masked word scan yields the lowest clear bit at or above the start bit, or none when there is none |
| `Bitmap.UpdateGet` | src/memory/physical.rs:42-62 | setting or clearing a bit changes that bit and no other |
| `Bitmap.RepresentsUnique` | src/memory/physical.rs:16-28 | a set of frames has one bitmap, so equal sets mean equal words |
| `PhysicalMemory.FindFirstFreeFrameFrom` | src/memory/physical.rs:64-82 | the least free frame at or above the start, or none exactly when all of those are taken |
| `PhysicalMemory.Manager.constructor` | src/memory/physical.rs:16-28 | the frame count is the memory size in whole frames and the counters are zero |
| `PhysicalMemory.Manager.ResetAllBits` | src/memory/physical.rs:508-517 | no frame is used or reserved afterwards, and the hint stays |
| `PhysicalMemory.Manager.GetBit` | src/memory/physical.rs:35-40 | the bit is set exactly for a taken frame |
| `PhysicalMemory.Manager.SetBit` | src/memory/physical.rs:42-51 | the bitmap represents the taken frames and this one, if it exists |
| `PhysicalMemory.Manager.ClearBit` | src/memory/physical.rs:53-62 | the bitmap represents the taken frames without this one |
| `PhysicalMemory.Manager.AllocFrame` | src/memory/physical.rs:84-108 | next fit from the hint with wrap-around; fails exactly when every frame is taken; only the frame found becomes used, it is counted, and right counters stay right |
| `PhysicalMemory.Manager.AllocFramesContiguous` | src/memory/physical.rs:110-135 | succeeds exactly when a free run of the count exists; takes the lowest run for two frames or more and the next fit for one, which decides the address; panics exactly for a count of two or more above the total |
| `PhysicalMemory.Manager.FreeFrame` | src/memory/physical.rs:137-143 | the frame is free afterwards; the counters stay exact if and only if it was not reserved |
| `PhysicalMemory.Manager.ReserveFrame` | src/memory/physical.rs:145-155 | an untaken frame becomes reserved and is counted, any other call changes nothing, and right counters stay right |
| `PhysicalMemory.Manager.FreeFramesContiguous` | src/memory/physical.rs:157-166 | the whole range is free afterwards and its taken frames are counted down; right counters stay right if and only if it holds no reserved frame |
| `PhysicalMemory.Manager.GetFreeFrames` | src/memory/physical.rs:172-174 | aborts exactly when the counters exceed the total; balanced counters give the number of free frames unless one has wrapped |
| `PhysicalMemory.Manager.AllocAt` | src/memory/physical.rs:219-228 | succeeds exactly on an existing free frame, which becomes used |
| `PhysicalMemory.Manager.FindLargestFreeBlock` | src/memory/physical.rs:374-392 | the length of the longest free run |
| `PhysicalMemory.Manager.AllocUpToLargest` | src/memory/physical.rs:110-135 | contiguous allocation succeeds if and only if the count is positive and at most what `find_largest_free_block` returned |
| `PhysicalMemory.Manager.AllocAndMap` | src/memory/physical.rs:420-430 | succeeds exactly when a free run of the count exists and the mapper accepts the run that contiguous allocation serves, and returns its address; otherwise bitmap and counters are as before, right or not |
| `PhysicalMemory.Manager.AllocGuardedRegion` | src/memory/physical.rs:462-469 | the address lies one page into the lowest free run with a guard frame on each side, which is newly taken; succeeds exactly when such a run exists |
| `PhysicalMemory.Manager.FreeGuardedRegion` | src/memory/physical.rs:471-474 | region and guards are free afterwards |
| `PhysicalMemory.Manager.GuardedRoundTrip` | src/memory/physical.rs:462-474 | allocating and freeing a guarded region restores the bitmap words and the counters |
| `PhysicalMemory.Manager.IsBitmapFull` | src/memory/physical.rs:527-536 | yes if and only if all frames are taken and their number is a multiple of 64 |
| `PhysicalMemory.Manager.GetFragmentationInfo` | src/memory/physical.rs:605-619 | the number of maximal free runs, whatever the counters, and the free frames as `get_free_frames` gives them |
| `FrameRuns.LargestDecides` | src/memory/physical.rs:374-392 | a run of a length exists exactly when it is at most the longest, so the two searches agree |
| `FrameRuns.StartsAreMaximalRuns` | src/memory/physical.rs:605-619 | each counted start begins exactly one maximal free run, and every maximal run is counted |
| `FrameRuns.FragmentationBound` | src/memory/physical.rs:605-619 | the free frames are at most the number of runs times the longest |
| `SequentialPages.VisitsEachOnce` | src/syscall/core.rs:173-180 | the circular search visits every page exactly once, from any hint |
| `SequentialPages.GaveUpBound` | src/syscall/core.rs:173-218 | a search that gave up left at most as many free pages as compare-and-swaps failed |
| `SequentialPages.TakenAreHeld` | src/syscall/core.rs:166-252 | the taken pages are those handed out and not successfully given back since |
| `SequentialPages.NoDoubleHandOut` | src/syscall/core.rs:166-252 | between two hand-outs of a page lies a successful deallocation of it |
| `PageAllocator.StepKeeps` | src/syscall/core.rs:166-252 | every atomic step of every thread keeps mutual exclusion, the legal history and what each thread knows |
| `PageAllocator.RunIsLinearizable` | src/syscall/core.rs:166-252 | over every interleaving the finished operations form a legal sequential history, and between them bits and hint are the sequential ones |
| `PageAllocator.BitsAreOwned` | src/syscall/core.rs:254-269 | whenever the lock is free a bit is set exactly for a page handed out and not given back |
| `PageAllocator.NoPageTwice` | src/syscall/core.rs:166-220 | no interleaving hands out a page twice without a successful deallocation in between |
| `PageAllocator.AllocationResult` | src/syscall/core.rs:166-220 | the page is the first free one from the hint; nothing is returned if and only if the failed swaps use up the rounds before every free page, so without failures exactly when none is free |
| `PageAllocator.SpuriousMiss` | src/syscall/core.rs:193-212 | a run in which one spurious failure makes the allocation return nothing with a page free |
| `PageAllocator.FreeOkIffTaken` | src/syscall/core.rs:222-252 | deallocation succeeds exactly on a page that is held when it takes effect |
| `PageAllocator.NoFallbackTaken` | src/syscall/core.rs:173-190 | in every reachable state the scan stays inside the bitmap, the swap meets the word it read, and the hint names a page |
| `PageAllocator.AddressRoundTrip` | src/syscall/core.rs:204-236 | the addresses accepted for deallocation are exactly those handed out for pages, one each |
| `PageAddresses.AnswersAreInside` | src/syscall/core.rs:166-220 | over every interleaving each address answered is a whole number of pages into the region, with its page inside |
| `PageAddresses.NoAddressTwice` | src/syscall/core.rs:166-252 | over every interleaving no address is answered twice unless it was successfully passed to a deallocation in between |
| `PageAddresses.FreeOkIffHeld` | src/syscall/core.rs:222-252 | over every interleaving a deallocation succeeds exactly when the address passed to it was answered and not successfully returned since |
| `PageAddresses.BitsAreHeld` | src/syscall/core.rs:254-269 | whenever the lock is free, the bit of an address is set exactly when the address is held |
| `PageAddresses.FreeKeepsAddress` | src/syscall/core.rs:222-252 | in any state a deallocation starts exactly for a page boundary in the region, keeps the address given to it and is logged with it; a step moves no other thread |
| `PageAddresses.FreeAlone` | src/syscall/core.rs:222-252 | a deallocation left alone clears the bit of its page and no other, and reports whether it was set |
| `PageAddresses.AllocateAlone` | src/syscall/core.rs:166-220 | from any reachable state with the lock free, an allocation left alone ends, with the address of the first free page from the hint, or with nothing exactly when none is free |
| `PageAddresses.HintFollows` | src/syscall/core.rs:166-220 | whenever the lock is free, the next search starts after the page handed out last, or at page 0 if none was |
| `BumpAllocator.StepKeeps` | src/syscall/core.rs:68-128 | every atomic step keeps mutual exclusion, the bounds, the tiling and what each thread knows |
| `BumpAllocator.RunStaysInBounds` | src/syscall/core.rs:68-106 | with an end below the largest `usize`, over every interleaving all regions handed out lie inside the bounds |
| `BumpAllocator.RunRegionsDisjoint` | src/syscall/core.rs:68-106 | without `set_current`, the regions are disjoint, in order, and sum to the advance of the cursor |
| `BumpAllocator.RetryMeansSet` | src/syscall/core.rs:88-104 | a failed swap means that `set_current` stored since the load |
| `BumpAllocator.RunKeepsCurrent` | src/syscall/core.rs:68-128 | for every end, over every interleaving one thread at most is in its critical section and the cursor stays inside the bounds |
| `BumpRegions.AboveIsSafe` | src/syscall/core.rs:118-128 | a value at or above the end of every region handed out is safe |
| `BumpRegions.SafeStoresKeepApart` | src/syscall/core.rs:68-128 | in every run whose stores are safe when they happen, the regions are pairwise disjoint |
| `BumpRegions.StoreSafeIff` | src/syscall/core.rs:118-128 | between operations of any run, no continuation without another store makes regions overlap if and only if the stored value is safe |
| `BumpRegions.WithinIff` | src/syscall/core.rs:58-87 | all runs keep all regions inside the bounds if and only if the end is below the largest `usize` |
| `BumpRegions.ApartIff` | src/syscall/core.rs:58-87 | all runs with safe stores keep the regions disjoint if and only if the end is below the largest `usize` |
| `BumpRegions.SetCurrentCanOverlap` | src/syscall/core.rs:118-128 | for any bounds with room for a page, a run in which `set_current` makes the allocator hand out one region twice |
| `BumpRegions.AllocateAlone` | src/syscall/core.rs:68-106 | a request that fits and is left alone gets the bytes at the cursor, which moves past them |
| `BumpRegions.NewWithinIff` | src/syscall/core.rs:58-87 | all runs of a new allocator keep all regions inside the memory given if and only if that ends below the largest `usize` |
| `BumpReplies.RunReplies` | src/syscall/core.rs:68-106 | over every interleaving the regions granted by the answers are, in order, those handed out whenever the lock is free, and every refused request did not fit between the value it saw and the end |
| `BumpReplies.RequestKept` | src/syscall/core.rs:68-128 | in any state a request starts for whole pages, and a failed swap and every other step keep its size until it is answered with that size |
| `BumpReplies.RefusedAlone` | src/syscall/core.rs:68-106 | a request that does not fit and is left alone is refused, and nothing else changes |
| `QueueInvariant.ScheduleKeeps` | src/scheduler/scheduler.rs:12-37 | `schedule` keeps the queue invariant; for each outcome which task is current and which states hold |
| `QueueInvariant.AddTaskKeeps` | src/scheduler/scheduler.rs:99-110 | a new task with a fresh id goes to the first empty slot, or nowhere when the queue is full, and the invariant holds |
| `QueueInvariant.InitKeeps` | src/scheduler/scheduler.rs:142-148 | with no queued task running or having its id, the first task becomes current and running and is queued in the first empty slot |
| `QueueInvariant.CreateKeeps` | src/scheduler/scheduler.rs:199-215 | refused exactly when every slot is occupied; otherwise, if the next id is fresh, the task is queued ready with it and the invariant holds |
| `QueueInvariant.RemoveKeeps` | src/scheduler/scheduler.rs:150-162 | exactly the slot of the current task is emptied, and no task is current |
| `QueueInvariant.SetTaskStateKeeps` | src/scheduler/scheduler.rs:170-181 | the named task alone gets the state |
| `QueueInvariant.SetCurrentStateKeeps` | src/scheduler/scheduler.rs:382-388 | changing the current task's state keeps the invariant |
| `QueueInvariant.WakeKeeps` | src/scheduler/scheduler.rs:436-446 | exactly the sleeping tasks whose wake time has come become ready |
| `QueueInvariant.SleepKeeps` | src/scheduler/scheduler.rs:448-456 | putting the current task to sleep and rescheduling keeps the invariant |
| `QueueInvariant.CleanKeeps` | src/scheduler/scheduler.rs:603-614 | exactly the slots of zombie tasks are emptied |
| `QueueInvariant.TickKeeps` | src/scheduler/scheduler.rs:112-124 | a timer tick keeps the invariant |
| `QueueInvariant.QuantumRuns` | src/scheduler/scheduler.rs:112-124 | the current task keeps the processor until its ticks reach its slice, and the next tick calls the scheduler |
| `QueueInvariant.RunKeeps` | src/scheduler/scheduler.rs:12-272 | from boot, every state of every allowed run has an exact count, unique ids and at most the current task running |
| `QueueEffects.ScheduleEffect` | src/scheduler/scheduler.rs:12-52 | in any state and for each outcome: the lock is held afterwards exactly when it was before or no task is current; which task is current; the state of every block; the task chosen is the first eligible one, and the processor halts exactly when there is none |
| `QueueEffects.TickEffect` | src/scheduler/scheduler.rs:112-124 | a tick within the slice counts one and changes nothing else; otherwise the count restarts at zero, `schedule` is called on that state, and no other block changes but for its state |
| `QueueEffects.SleepEffect` | src/scheduler/scheduler.rs:448-456 | the current task sleeps until its time plus the duration whatever `schedule` then does; no other wake time changes, only a task switched to changes state, and the lock is as before |
| `QueueEffects.SetCurrentEffect` | src/scheduler/scheduler.rs:382-388 | the current task gets the state, and every other block, the queue and the lock stay |
| `QueueEffects.SetTaskEffect` | src/scheduler/scheduler.rs:170-181 | in any state the task in the first slot with the id gets the state and nothing else changes |
| `QueueEffects.WakeEffect` | src/scheduler/scheduler.rs:436-446 | in any state exactly the queued sleepers whose time has come become ready and nothing else changes |
| `QueueEffects.StepFrame` | src/scheduler/scheduler.rs:99-272 | for every operation in any state what becomes of the lock, the next id, the current task and, where no state is set, the blocks |
| `QueueEffects.ResetIsBoot` | src/scheduler/scheduler.rs:262-272 | a reset queue is the one at boot |
| `QueueIds.StepCounted` | src/scheduler/scheduler.rs:99-272 | every operation with any arguments keeps the count exact, and unique ids stay unique if and only if what it queues has an unqueued id |
| `QueueIds.RunCounted` | src/scheduler/scheduler.rs:99-272 | from boot, in every run without any condition on the callers, the count is the number of queued tasks |
| `QueueIds.RunUniqueIff` | src/scheduler/scheduler.rs:99-215 | from boot, ids are unique in every state up to a point if and only if each id was unqueued at the moment it was queued |
| `QueueIds.CreateCounted` | src/scheduler/scheduler.rs:199-215 | `create_task` keeps the count exact, and ids stay unique if and only if no queued task has the next id when there is room |
| `QueueIds.DuplicateAfterBoot` | src/scheduler/scheduler.rs:142-215 | from boot, after a first task of id 1 the first created task has the same id |
| `Fairness.FindNextIsFirst` | src/scheduler/scheduler.rs:39-52 | the search yields the first ready slot after the current id modulo the length, or none exactly when none is ready |
| `Fairness.Progress` | src/scheduler/scheduler.rs:12-52 | in a clear layout each call that passes over a ready task moves the search strictly closer to it |
| `Fairness.BoundedWaiting` | src/scheduler/scheduler.rs:12-52 | in a clear layout a ready task is passed over fewer times than there are slots |
| `Fairness.CongruentIsClear` | src/scheduler/scheduler.rs:39-52 | a layout in which each id is congruent to its slot is clear |
| `Fairness.Starves` | src/scheduler/scheduler.rs:39-52 | in any layout that is not clear there are states from which a ready task is never chosen |
| `Fairness.FairIff` | src/scheduler/scheduler.rs:12-52 | every ready task is eventually chosen from every state of a layout if and only if the layout is clear |
| `Fairness.TwoTasksFairIff` | src/scheduler/scheduler.rs:12-52 | after `init_scheduler` and one `create_task` from boot the layout is fair if and only if the first id is a multiple of the queue length; otherwise the created task is never chosen |
| `KernelScheduler.Scheduler.FindNextTask` | src/scheduler/scheduler.rs:39-52 | the loop computes the circular search |
| `KernelScheduler.Scheduler.ScheduleNext` | src/scheduler/scheduler.rs:12-37 | the object's new state and outcome are those of the schedule step |
| `KernelScheduler.Scheduler.AddNewTask` | src/scheduler/scheduler.rs:99-110 | the queue array becomes that of the add step |
| `KernelScheduler.Scheduler.TimerTick` | src/scheduler/scheduler.rs:112-124 | the new state and outcome are those of the tick step |
| `KernelScheduler.Scheduler.InitWith` | src/scheduler/scheduler.rs:142-148 | the new state is that of the initial step |
| `KernelScheduler.Scheduler.RemoveCurrentTask` | src/scheduler/scheduler.rs:150-162 | the new state is that of the remove step |
| `KernelScheduler.Scheduler.SetStateById` | src/scheduler/scheduler.rs:170-181 | the loop changes the state of the first task with the id |
| `KernelScheduler.Scheduler.SetStateOfCurrent` | src/scheduler/scheduler.rs:382-388 | the state of the current task is replaced |
| `KernelScheduler.Scheduler.CreateNewTask` | src/scheduler/scheduler.rs:199-215 | the new state and result are those of the create step |
| `KernelScheduler.Scheduler.WakeUpTasks` | src/scheduler/scheduler.rs:436-446 | the loop computes the wake step over all slots |
| `KernelScheduler.Scheduler.SleepCurrentTask` | src/scheduler/scheduler.rs:448-456 | the new state and outcome are those of the sleep step |
| `KernelScheduler.Scheduler.CleanupZombieTasks` | src/scheduler/scheduler.rs:603-614 | the loop computes the clean-up step over all slots |
| `VirtualMemory.MapPageKeeps` | src/memory/virtual.rs:82-116 | on success the page alone gets the entry, on failure no page changes; tree and counter stay exact |
| `VirtualMemory.MapPageSucceedsIff` | src/memory/virtual.rs:82-116 | succeeds if and only if a frame is granted for each missing table of the path |
| `VirtualMemory.UnmapPageKeeps` | src/memory/virtual.rs:118-142 | the page alone becomes unused; a refused call changes nothing |
| `VirtualEntries.MapTranslates` | src/memory/virtual.rs:82-116 | after a successful `map_page` the addresses of the page translate to the frame given, and no other translation changes |
| `VirtualEntries.UnmapTranslates` | src/memory/virtual.rs:118-142 | after `unmap_page` the addresses of the page do not translate and no other changes; refused exactly when a table of the path is missing |
| `VirtualEntries.UpperEntries` | src/memory/virtual.rs:82-116 | in every run a used entry of an upper table leads to a table of the tree and is present and writable |
| `VirtualRanges.FindFreeIsLeast` | src/memory/virtual.rs:304-323 | the least page-aligned base in user space whose pages are all free, or out of memory exactly when there is none |
| `VirtualRanges.FindFreeInsideIff` | src/memory/virtual.rs:304-323 | the range found lies wholly in user space if and only if some free range of that length does |
| `VirtualRanges.MapRunExact` | src/memory/virtual.rs:144-152 | after a successful range map each page has its own frame and the flags |
| `VirtualRanges.UnmapRunKeeps` | src/memory/virtual.rs:154-161 | pages outside the range are unchanged, and on success every page of the range is unused |
| `VirtualRanges.AllocateUserPagesExact` | src/memory/virtual.rs:292-302 | on success the base is the first free range, its pages get the consecutive frames, and no used page changes |
| `VirtualRanges.MmapAnywhere` | src/memory/virtual.rs:504-527 | with address 0, on success the base is the first free range and it is mapped; no used page changes either way |
| `VirtualRanges.MunmapUndoesMmap` | src/memory/virtual.rs:529-536 | unmapping what `mmap` returned succeeds and restores every translation |
| `VirtualGrants.MapRunSucceedsIff` | src/memory/virtual.rs:144-152 | a range map succeeds if and only if the supply grants a frame for each page without one and for each missing table |
| `VirtualGrants.MmapExact` | src/memory/virtual.rs:504-527 | with a given address or none: refused without change exactly when the address is outside user space or no range is free; otherwise succeeds if and only if a frame is granted for each page and each missing table, returns the base, and each page has the frame of its round and the protection asked for; no other page changes |
| `VirtualGrants.AllocateUserSucceedsIff` | src/memory/virtual.rs:292-302 | succeeds if and only if its frames and a free range are there and each missing table is granted |
| `VirtualGrants.MunmapExact` | src/memory/virtual.rs:529-536 | unmaps the pages of the range up to the first whose leaf table is missing and no other, and succeeds exactly when none is missing |
| `VirtualRanges.RunInv` | src/memory/virtual.rs:82-161 | any run keeps the tree sound and the counter exact |
| `VirtualRanges.PageCountLaw` | src/memory/virtual.rs:34-142 | from `new`, after any run the counter is the number of used entries of all levels plus the maps that overwrote one |
| `VirtualFrames.MappedFramesDiffer` | src/memory/virtual.rs:504-536 | in every run of `mmap`, `munmap` and `unmap_page` no two pages share a frame and no page has the frame of a table |
| `VirtualFrames.FailedMmapLeaves` | src/memory/virtual.rs:504-527 | a failed `mmap` at address 0 leaves exactly the first pages of the range it found mapped, fewer than asked |
| `VirtualManager.Manager.constructor` | src/memory/virtual.rs:34-51 | an empty root and a zero counter |
| `VirtualManager.Manager.MapPage` | src/memory/virtual.rs:82-116 | the new state and result are those of the map step; the only error is out of memory |
| `VirtualManager.Manager.UnmapPage` | src/memory/virtual.rs:118-142 | the new state and result are those of the unmap step; the only error is an invalid address |
| `VirtualManager.Manager.TranslateAddress` | src/memory/virtual.rs:216-237 | the answer is the translation of the tree |
| `VirtualManager.Manager.FindFreeVirtualRange` | src/memory/virtual.rs:304-323 | the nested loops compute the first-fit search |
| `VirtualManager.Manager.MapPages` | src/memory/virtual.rs:144-152 | the loop is the range map, stopping at the first failure |
| `VirtualManager.Manager.MmapPages` | src/memory/virtual.rs:504-527 | the new state and result are those of `mmap`, with a given address or none |
| `VirtualManager.Manager.MunmapPages` | src/memory/virtual.rs:529-536 | the loop is the range unmap, stopping at the first failure |
| `VirtualManager.Manager.AllocateUser` | src/memory/virtual.rs:292-302 | the new state and result are those of the user allocation |
| `FreeLists.ClassMeaning` | src/memory/heap.rs:33-38 | list `i` holds the sizes from 2^i up to 2^(i+1), and the last list everything larger |
| `FreeLists.SearchComplete` | src/memory/heap.rs:50-77 | the search fails exactly when no block of any list fits, and otherwise finds the first fit of the lowest list with one |
| `FreeLists.FitsIff` | src/memory/heap.rs:50-58 | a block fits a request exactly when an aligned stretch of that size lies inside it |
| `FreeLists.RemoveFailsIff` | src/memory/heap.rs:50-77 | on the lists, nothing is returned exactly when no free block fits, and what is returned fits |
| `FreeRecords.InsertHoldsIff` | src/memory/heap.rs:40-48 | memory that holds the lists holds them with the new block if and only if its record meets no record of a free block |
| `FreeRecords.DetachHolds` | src/memory/heap.rs:59-61 | unlinking a record leaves memory holding the lists without its block |
| `FreeRecords.TakeFitHoldsIff` | src/memory/heap.rs:50-77 | the walk through memory ends and answers as on the lists, and memory holds the new lists if and only if the rest of a split meets no record of another free block |
| `FreeRecords.LoopsForever` | src/memory/heap.rs:53-73 | a walk that has visited more records than memory holds never ends |
| `KernelHeap.InitConservesIff` | src/memory/heap.rs:99-103 | on the lists, `init` keeps the byte account if and only if the heap held no bytes |
| `KernelHeap.Rounded` | src/memory/heap.rs:116-140 | a request takes the least multiple of 8 that holds its size and its alignment, and grows the heap by the least such multiple of 4096 |
| `HeapMemory.TryMirrorsIff` | src/memory/heap.rs:116-126 | an attempt is answered as from the lists, and memory holds the new lists if and only if the rest of a split is clear |
| `HeapMemory.AllocMirrors` | src/memory/heap.rs:128-171 | an allocation with or without expansion whose writes are clear is answered as from the lists and leaves memory holding the new ones |
| `HeapMemory.DeallocMirrorsIff` | src/memory/heap.rs:173-182 | after a deallocation memory holds the new lists if and only if the record of the freed block is clear |
| `HeapMemory.EraseHoldsIff` | src/memory/heap.rs:40-48 | a program may write to its block without harm to the lists if and only if no record of a free block lies in it |
| `HeapMemory.RunConserves` | src/memory/heap.rs:99-182 | over every run with matching layouts and clear writes, the lists read off memory are in their classes, the used bytes are those outstanding, used and free bytes sum to the total less at most 32 for each unsplit allocation, and the total is the initial stretch plus the pages |
| `HeapMemory.RunSearches` | src/memory/heap.rs:50-77 | in such a run a search ends and finds nothing exactly when no free block in memory fits |
| `HeapMemory.RunAllocates` | src/memory/heap.rs:154-171 | in such a run an allocation succeeds whenever suitably aligned pages are granted and its writes are clear |
| `HeapMemory.RunServes` | src/memory/heap.rs:154-171 | in such a run a pointer answered starts a free block, or the pages just granted, with at least the bytes requested; outstanding and used bytes grow by the least multiple of 8 that holds size and alignment |
| `HeapMemory.RunTakes` | src/memory/heap.rs:50-77 | in such a run a request takes from the free bytes the whole block it is served from, or exactly its own when more than 32 are left over |
| `HeapMemory.RunInitialised` | src/memory/heap.rs:99-103 | in any run at all the heap is ready to serve exactly when some call has initialised it |
| `HeapOverwrite.OverwriteBreaksAccount` | src/memory/heap.rs:63-69 | two runs with matching layouts in which a rest overwrites a free record: bytes are lost in one and appear in the other, and a block is in the wrong class |
| `HeapPlacement.RunPlaced` | src/memory/heap.rs:50-77 | over every run that writes over no record of a free block, for a divisor of 64 that divides every supplied address, every block read off memory and every outstanding block starts at a multiple of it |
| `HeapPlacement.HonouredIff` | src/memory/heap.rs:50-77 | with memory supplied at multiples of 2^a, every such run answers every request of alignment 2^e with an aligned address if and only if e is at most a and at most 6 |
| `HeapPlacement.MissedAbove64` | src/memory/heap.rs:50-77 | an alignment above 64 is missed by some such run however well the memory is aligned |
| `HeapPlacement.RestInsideIff` | src/memory/heap.rs:63-69 | the rest of a split lies past the served bytes, and inside the block exactly when the request is empty |
| `HeapObject.KernelAllocator.InsertBlock` | src/memory/heap.rs:40-48 | the record is written at the block and becomes the head of the list of its class |
| `HeapObject.KernelAllocator.TakeBestFit` | src/memory/heap.rs:50-77 | the nested loops over records compute the removal with its split on any memory, or never end |
| `HeapObject.KernelAllocator.TryAllocate` | src/memory/heap.rs:116-126 | memory, counters and answer are those of the attempt on the machine |
| `HeapObject.KernelAllocator.Allocate` | src/memory/heap.rs:154-171 | memory, counters and answer are those of the allocation with expansion on the machine |
| `HeapObject.KernelAllocator.Deallocate` | src/memory/heap.rs:173-182 | memory and counters are those of the deallocation on the machine |
| `HeapObject.KernelAllocator.Initialise` | src/memory/heap.rs:99-103 | memory and counters are those of `init` on the machine |

## Left out

- PhysicalMemory.Manager.ResetAllBits: the memory size is a 64-bit number, so fewer than 2^52 frames are assumed.
- QueueInvariant.AddTaskKeeps: for a task whose id is fresh and whose state is not running; the source accepts any block, and the class method and the laws of `QueueIds` cover that.
- QueueInvariant.InitKeeps: while no queued task runs or has the id; the class method and the laws of `QueueIds` cover every call.
- QueueInvariant.CreateKeeps: while the next id is fresh; the class method and the laws of `QueueIds` cover every call.
- HeapMemory.RunConserves: for deallocations with the pointer and layout of an outstanding allocation, as the allocator interface demands, and for runs whose writes are clear; it does not say that the bytes of blocks are disjoint, since the rest of a split leaves its block.
- VirtualMemory.MapPageKeeps: an entry with address 0 and flags 0 counts as used, because the entry type is not part of the repository.
- VirtualRanges.PageCountLaw: counts an entry with address 0 and flags 0 as used, for the same reason.
- BumpAllocator.StepKeeps: a page count whose byte size overflows is refused at the start, as a build with overflow checks stops there; the wrapped size of a build without them is not modelled.
- VirtualRanges.MmapAnywhere: covers address 0; `VirtualGrants.MmapExact` covers a given address, which may overwrite used pages.
- The ids, ticks and counts of the scheduler are unbounded; their 64-bit wrap-around is not modelled.
- The atomicity and memory-ordering of `is_allocated` without the lock, and orderings weaker than sequential consistency.
- Writing the control register and flushing translation caches after table changes.
- Copy-on-write, cloning and page-fault handling of the virtual memory manager, `protect_memory` and `verify_access`.
- Thin wrappers of the frame manager: region initialisation, aligned and ranged allocation, percentages and raw setters.
- Priorities, exit codes, the policy variants of `schedule` and the context switch itself.
- The system call layer, devices, interrupts, the spin lock and start-up code.
