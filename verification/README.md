# Verification of isaac-os

This project models the parts of isaac-os, a small RISC-V kernel with its SBI layer, whose correctness
rests on invariants across several functions, and proves properties of them for all inputs, all runs and
all interleavings.

- **Memory.** The page allocator keeps two bits a page, four pages to a byte; they are shown to encode a
  unique set of disjoint extents (`PageAlloc`). Sv39 tables are words in pages of that allocator; they are
  shown to form a forest that refines one finite map per root, and translation is compared with the Sv39
  algorithm of the RISC-V Privileged Architecture, version 1.12, sections 4.3.2 and 4.4.1 (`Sv39`,
  `PageTables`, `Mmu`). The kernel heap is a circular, address-ordered free list over block headers; its
  blocks are shown to tile the heap (`FreeList`, `Kmalloc`), and the heap lies in a window of the kernel
  table (`KernelHeap`). A process is the client of all three, over its whole life (`ProcessPages`).
- **Scheduling.** The linked list (`LinkedList`) and the run list sorted by vruntime (`Schedule`) are
  classes; `HartScheduling` is the state machine of all harts, one step per section under `schedule_lock`
  or write outside it; `ProcessHistories` follows a process along its runs.
- **File systems.** `OrderedMap` is the binary search tree, `FilePath` the path parser and joiner,
  `MinixCache` the inode cache built over a cyclic directory graph, `MinixRead` the reader through
  indirect zones, `Ext4` the reader through an extent tree; `DiskImage` holds the disk's bytes and the
  numbers stored in them.
- **Block device.** `VirtQueue` is the protocol of requester, device and interrupt handler over a split
  virtqueue (VIRTIO 1.1, section 2.6); `BlockIo` is byte-addressed I/O over the device's sectors
  (section 5.2.6).
- **Harts and locks.** `Hart` is every interleaving of starting and stopping harts in atomic steps,
  `HartBoot` the same with harts started while they boot; `Launching` joins them with the scheduler's runs;
  `Locks` is the semaphore and the boot barrier.
- **Drawing.** `Paint` is the line-drawing loop of the paint program.
- **Shared.** `Machine` holds constants and facts about sequences and sets, `Arithmetic` the lemmas on
  products, quotients and remainders that the other modules' arithmetic rests on.

A method that changes state is proved against functions or predicates on values; what the source promises
is then proved about those as lemmas. Machine words are natural numbers, with wrap-around or truncation
written out where it can happen. Addresses returned by allocators the component does not own (list, map and
cache nodes) are parameters or counters.

The invariants `Inv`, `Sound`, `Fine`, `CacheOk`, `Expanding` and `Going` wrap their conditions in a
quantifier, so that the prover looks into them only where a proof mentions the state in `Unfold` or `Look`;
so do a few loop invariants and the predicates on ext4's nodes. In the state machines of `HartScheduling`, `Hart` and `HartBoot` a program
counter is the line of the source about to be carried out.

## Findings

- Requests of `kmalloc` within 15 of 2^64 wrap to size 0 (`Kmalloc.AlignedCoversIff`). A growth for
  2^43 - 4119 bytes or more asks `page_zalloc` for too few pages, as the count is cut to an `int`: 0 for
  2^44 - 32 bytes (`Kmalloc.GrowthCoversIff`). Both bounds are exact.
- `page_zalloc` zeroes what `page_alloc` returns without testing for NULL (src/page_alloc.c:136-137), so the
  NULL tests of its callers come too late: a growth of the kernel heap is sound exactly if there is a run of
  free pages for it (`KernelHeap.Kernel.GrowWindow`), and a `kmalloc` exactly if something fits or there is
  such a run (`KernelHeap.Kernel.Kmalloc`). It never is for more bytes than the allocator's pages hold, as
  when src/process.c:201 loads a file of that size (`KernelHeap.Kernel.LargeRequestsFail`).
- `process_prepare` maps the frame of a process to consecutive pages from that of its first byte on. The
  process sees its own frame in all of them exactly if the pages of the kernel heap behind it are
  consecutive (`ProcessPages.FrameSharedIff`), which a block across two growths of the heap need not be.
- `mmu_map_many` maps the page of the end address too, so that behind its stack a process can use the
  physical page that follows the stack's extent (`ProcessPages.StackLeads`).
- `mmu_translate` checks neither for canonical addresses nor for reserved entries nor for misaligned
  superpages (`PageTables.TranslationIsStandardIff`). In the kernel's trees, addresses 2^39 above a mapped
  one alias it, and pages mapped writable but not readable translate, where the Sv39 algorithm faults
  (`PageTables.ForestIsStandardIff`, `PageTables.HighAddressesAlias`, `Mmu.WriteOnlyPagesDiffer`).
- The driver counts sectors in units of the device's block size, the device in units of 512 bytes: the
  byte asked for is reached exactly if it lies in the first block, or if the block size is 512 and the
  sector number fits 32 bits (`BlockIo.ReachedIffSmall`). A request whose device reports an error still
  returns true, so the file systems go on with what their buffers hold.
- The path parser loses pieces exactly where a separator follows an escaped slash
  (`FilePath.ParsedIsNamesIff`).
- The joiner leaves no room for a terminating NUL exactly when the first path is absolute or an escaped
  slash alone (`FilePath.NulFitsIff`).
- The ext4 reader computes a block's address rightly exactly for blocks of 1024 bytes
  (`Ext4.BlockAddressIff`).
- A hart whose boot code has not ended when another hart starts it handles the start with the boot code's
  target exactly if that code writes its own later and the two differ (`HartBoot.HandledAsGivenIff`); a run
  shows it (`HartBoot.StartIsLost`). The start protocol is proved for harts started after boot.
- A pending undo of a failed `semaphore_trydown` can turn away a hart although a unit is free
  (`Locks.TryDownSucceedsIff`, `Locks.UndoTurnsAway`).

A failed `hart_start` in `schedule_schedule` would lose the process for good
(`HartScheduling.StrandedIffFailed`). It does not happen to a process if, after src/main.c:108-110, where
there are only the idle processes, a hart is only ever started by itself: then such a start succeeds
(`HartBoot.OwnStartFailsIff`), and no process is stranded (`Launching.NoneStranded`).

## Model

| member | source | states |
|---|---|---|
| PageAlloc.SetLane | src/page_alloc.c:11-13 | setting the bits of one page changes exactly those bits and no bit of the three pages sharing its byte |
| PageAlloc.UnsetLane | src/page_alloc.c:15-16 | clearing the bits of one page clears exactly those and leaves the other pages of the byte alone |
| PageAlloc.BothBits | src/page_alloc.c:7-9 | the shifted test for both bits agrees with the two single tests |
| PageAlloc.PageCountIsLargest | src/page_alloc.c:35-44 | the exact quotient by 4096.25, truncated, is the largest page count for which the pages and their bookkeeping bytes fit the heap |
| PageAlloc.RoundingIsHarmless | src/page_alloc.c:24-43 | for every count that fits an int, the truncated quotient of doubles is that count |
| PageAlloc.EncodingIsUnique | src/page_alloc.c:54-72 | the TAKEN and LAST bits determine the set of extents, stale LAST bits on free pages included |
| PageAlloc.AllocKeepsEncoding | src/page_alloc.c:122-127 | after marking a free run the bits encode the old extents and the new one |
| PageAlloc.DeallocKeepsEncoding | src/page_alloc.c:149-153 | after clearing TAKEN on an extent the bits encode the other extents, although its LAST bit stays set |
| PageAlloc.DeallocUndoesAlloc | src/page_alloc.c:91-156 | allocating a run and releasing it gives back the taken set from before |
| PageAlloc.AllocSpendsPages | src/page_alloc.c:122-127 | an allocation of n pages lowers the number of free pages by exactly n |
| PageAlloc.PageAllocator.SetPage | src/page_alloc.c:11-13 | one page's bits are set in the packed bytes and no other page's change |
| PageAlloc.PageAllocator.UnsetPage | src/page_alloc.c:15-16 | one page's bits are cleared in the packed bytes and no other page's change |
| PageAlloc.PageAllocator.GetNumPages | src/page_alloc.c:54-72 | the pages left in the extent of any taken page, 0 on a free page, -1 past the end; the corruption branch is never taken |
| PageAlloc.PageAllocator.FindRun | src/page_alloc.c:97-120 | the lowest run of n free pages, or none exactly if there is no such run |
| PageAlloc.PageAllocator.Alloc | src/page_alloc.c:91-131 | the lowest free run of n pages becomes an extent and nothing else changes; NULL exactly when no run exists |
| PageAlloc.PageAllocator.Dealloc | src/page_alloc.c:142-156 | exactly the pages of the extent become free; on a free page nothing happens |
| Sv39.BitForms | src/mmu.c:40-57 | the shifts and masks that take an index, a page number or the address of a next table out of a word equal the arithmetic forms used in the model, for all 64-bit words |
| Sv39.ChunkForms | src/mmu.c:132-140 | so do the masks that cut an address into chunks and those of the low bits of a virtual address |
| Sv39.ChunkSums | src/mmu.c:138-140 | the ors that put chunks and low bits together are sums, as no two of the parts share a bit |
| Sv39.EntryBitForm | src/mmu.c:62 | assembling an entry with shifts and ors equals adding its fields |
| Sv39.DigitsDetermine | src/mmu.c:40-42 | the three 9-bit indices determine the 27-bit page number |
| Sv39.BranchRoundTrip | src/mmu.c:50-56 | following the entry written for a new table leads to that table, and the entry is valid, no leaf, and sets no bit the standard reserves |
| Sv39.LeafRoundTrip | src/mmu.c:62-63 | the entry written for a mapping is a leaf with the frame of the physical address and the low eight bits given, VALID added |
| Sv39.LeafIsRegular | src/mmu.c:62-63 | the entry written for a mapping sets no reserved bit, and is writable without being readable exactly if the bits asked for that |
| Sv39.FrameEntryPermits | src/mmu.c:62-63 | the entry written for a mapping allows reading, writing, execution and use by user code exactly as the bits given say |
| Sv39.LeafAddressIsStandard | src/mmu.c:131-141 | at each of the three levels the address put together from chunks is the one of step 8 of section 4.3.2 of the privileged architecture |
| PageTables.StandardWalkIs | src/mmu.c:124-146 | from any table on, the standard algorithm of section 4.3.2, written out independently with its reserved encodings and misaligned superpages, finds what the loop of mmu_translate finds, unless an entry met is reserved or the leaf misaligned |
| PageTables.TranslationIsStandardIff | src/mmu.c:111-151 | on any tables mmu_translate equals that algorithm exactly if it finds nothing, or the address is canonical, no entry met is reserved and the leaf is no misaligned superpage |
| PageTables.ForestIsStandardIff | src/mmu.c:32-68 | in the trees mmu_map builds, a mapped address translates as in the standard exactly if it is canonical and its page was not mapped writable without being readable |
| PageTables.HighAddressesAlias | src/mmu.c:119-121 | 2^39 above a mapped address mmu_translate finds the same memory, where the standard faults |
| PageTables.WaysAreBounded | src/mmu.c:46-57 | a range of pages needs at most one level-0 table for every 512 pages it touches and one level-1 table for every 2^18 |
| PageTables.PlaceIsUnique | src/mmu.c:46-57 | in a forest no table hangs from two entries: a table's place in its tree is unique |
| PageTables.NewTableKeepsForest | src/mmu.c:48-53 | hanging a fresh zeroed table from an empty entry keeps the forest |
| PageTables.NewTableKeepsViews | src/mmu.c:48-53 | hanging a fresh table changes the map of no root |
| PageTables.LeafUpdatesView | src/mmu.c:61-63 | writing a level-0 entry changes the map of its root at exactly one page number and the map of no other root |
| PageTables.ForestIsDefined | src/mmu.c:124-146 | in a forest a walk never leaves the tables, whatever the address |
| PageTables.RemovedKeepsForest | src/mmu.c:91-109 | removing one whole tree leaves a forest in which every other root has the map it had |
| PageTables.NewRootKeepsForest | src/process.c:51 | a fresh zeroed page becomes a root with the empty map and changes no other |
| Mmu.PageMapper.ZeroPages | src/page_alloc.c:74-89 | the loop clears the words that the byte count, cut to an int, says, and no others |
| Mmu.ZeroedIff | src/page_alloc.c:84 | these are all words of the extent exactly below 2^19 pages, and never more |
| Mmu.PageMapper.Zalloc | src/page_alloc.c:133-140 | while a page is free, a page that was no extent becomes one and reads as an empty table |
| Mmu.PageMapper.Descend | src/mmu.c:46-57 | the loop ends at the one level-0 table responsible for the page; the maps of all roots are as before |
| Mmu.PageMapper.Map | src/mmu.c:32-68 | the page of vaddr maps to the frame of paddr with the bits given; every other page of this root and every other root is unchanged; exactly the pages for the tables missing on the way, none to two, are needed and spent |
| Mmu.MappedPageTranslates | src/mmu.c:32-181 | seen through mmu_translate and mmu_flags: in the page mapped the same offset in the new frame, with the flags given; at every other address of every tree what was there before |
| Mmu.WriteOnlyPagesDiffer | src/mmu.c:61-63 | of a page mapped with W but without R, mmu_translate gives addresses where the standard faults |
| Mmu.PageMapper.Translate | src/mmu.c:111-151 | the result is the translation of the leaf that the three-level walk finds, or -1, on any tables |
| Mmu.PageMapper.GetFlags | src/mmu.c:153-181 | the flags of the leaf the same walk finds, or 0 |
| Mmu.RangeIsAffine | src/mmu.c:75-86 | mapping page after page gives one affine translation on exactly the pages of the range |
| Mmu.PageMapper.MapMany | src/mmu.c:70-89 | from the start page through the page holding the end address, that one included, one affine translation; nothing else changes; exactly the pages for the tables missing on the ways of the range are needed and spent |
| Mmu.RangeIsAffordable | src/mmu.c:18-24 | for n + 1 pages these are at most n/512 + n/2^18 + 4, so the kernel can map the whole region of its allocator |
| Mmu.PageMapper.FreeTable | src/mmu.c:91-109 | the recursion removes exactly the subtree's tables and releases each of their pages once, and no mapped frame |
| Mmu.PageMapper.FreeTree | src/mmu.c:91-109 | of a root: exactly the pages of its tables are released, every other tree keeps its map |
| Mmu.PageMapper.AllocExtent | src/page_alloc.c:91-131 | pages taken for other uses never coincide with tables |
| FreeList.InsertKeepsRing | src/kmalloc.c:21-27 | linking a node in at its address keeps the list circular, doubly linked and strictly address-ordered |
| FreeList.RemoveKeepsRing | src/kmalloc.c:29-32 | unlinking a node keeps the ring |
| FreeList.EveryByteInOneBlock | src/kmalloc.c:36-58 | in a tiled heap every byte from its start to its end lies in exactly one block |
| FreeList.CutKeepsTiling | src/kmalloc.c:49-53 | cutting a block in two keeps the tiling |
| FreeList.MergeKeepsHeap | src/kmalloc.c:172-174 | merging two touching free blocks keeps the tiling and the ring; the sentinel is not among them |
| FreeList.GrowKeepsHeap | src/kmalloc.c:117-119 | a block over the new pages extends the tiling to the new end |
| FreeList.MergeKeepsBytes | src/kmalloc.c:172-174 | a merge changes no byte from free to used or back |
| FreeList.CutTakesBytes | src/kmalloc.c:49-53 | what leaves the free bytes when a block is cut and handed out is exactly the block handed out |
| FreeList.NeighboursSuffice | src/kmalloc.c:170-178 | if no list neighbours touch, no two free blocks touch |
| Kmalloc.AlignedCoversIff | src/kmalloc.c:93 | the aligned size covers the request exactly if the request is at most 2^64 - 16 |
| Kmalloc.GrowthCoversIff | src/kmalloc.c:104-106 | the pages page_zalloc is asked for, the count cut to an int and no more than needed, hold header and request exactly below 2^43 - 4119 bytes; for 2^44 - 32 bytes it is asked for 0 |
| Kmalloc.Heap.Init | src/kmalloc.c:72-80 | the first page is tiled by the empty sentinel and one free block |
| Kmalloc.Heap.InsertAfter | src/kmalloc.c:21-27 | after the four writes a node whose address lies between two neighbours of the ring is a member of the ring between them, and no block has changed its size |
| Kmalloc.Heap.SplitNode | src/kmalloc.c:36-58 | -1, 0 or the size of the new node by the three cases; the blocks still tile the heap |
| Kmalloc.Heap.FindFit | src/kmalloc.c:95-100 | the free block of lowest address that is big enough, or the sentinel exactly if none is |
| Kmalloc.Heap.Extend | src/kmalloc.c:117-120 | one free block over the new pages joins at the end of the list |
| Kmalloc.Heap.Take | src/kmalloc.c:123-128 | the chosen block leaves the list, cut to size if the rest is worth it |
| Kmalloc.Heap.Coalesce | src/kmalloc.c:167-179 | in one pass, ending: no two free blocks touch, no byte changes between free and used, the sentinel is never merged |
| Kmalloc.Heap.Kfree | src/kmalloc.c:145-165 | the free bytes are those from before and exactly the released block's, header included; no two free blocks touch; every other block handed out keeps its place and size |
| Kmalloc.CandidateHandedOut | src/kmalloc.c:95-131 | what is returned is 8-aligned, of at least the requested size, in no block handed out before, and the first fit or the new pages: the whole block, or cut to the aligned size exactly if 40 bytes or more are left over |
| KernelHeap.GrowKeepsWindow | src/kmalloc.c:106-118 | after a growth every page below the new end translates to its own taken frame, although the last growth had mapped one page past its end |
| KernelHeap.Kernel.HeapByte | src/kmalloc.c:112-118 | every address below the end of the heap translates to its offset in a taken page, which the kernel, and only the kernel, can read and write and not execute |
| KernelHeap.Kernel.HeapIsInjective | src/kmalloc.c:112-118 | two different addresses of the heap translate to different physical addresses |
| KernelHeap.Kernel.Init | src/kmalloc.c:60-83 | the heap starts out valid in a window of one page |
| KernelHeap.Kernel.GrowWindow | src/kmalloc.c:106-118 | if there is a run of n free pages, the window grows by n pages, stays valid, and costs these and the missing tables; exactly if there is none, the growth is not sound, and the model stops |
| KernelHeap.Kernel.Kmalloc | src/kmalloc.c:85-132 | if something fits or there is a run of free pages to grow by, a block as above, in a heap that is valid, mapped and charged with exactly what was needed, no page if something fits; exactly otherwise the call is not sound, and the model stops |
| KernelHeap.Kernel.LargeRequestsFail | src/kmalloc.c:95-110 | whatever is free, nothing fits and no run exists for a request of more bytes than the allocator's pages hold |
| ProcessPages.Process.New | src/process.c:44-59 | a process owns a root of its own that maps nothing, and heap blocks with room for the process and its four lists; the extents of all others are unchanged |
| ProcessPages.Process.Prepare | src/process.c:91-180 | the process gains an extent of 8 pages for its stack, one of 1 page for its trap stack, and two list nodes; at every address its own table then leads where `Expected` says: the stack pages to the stack taken, readable and writable, by user code exactly if the process is no supervisor, the frame readable and writable, spawn code and trap vector executable, these by the kernel only; every other page as before; the extents and blocks of all others are unchanged |
| ProcessPages.StackLeads | src/process.c:134-147 | byte x of the stack range leads to byte x behind the first of the pages taken for it, and so in the one page more that is mapped |
| ProcessPages.FrameSharedIff | src/process.c:121-127 | the process sees its frame, a block of the kernel heap, as the kernel does exactly if the heap pages behind it are consecutive in memory |
| ProcessPages.Process.Launch | src/process.c:44-180 | after process_new and process_prepare the process can reach the stack range and the three objects and nothing else, and user code only the stack range, and that only if the process is no supervisor |
| ProcessPages.Process.Free | src/process.c:61-88 | the process's pages, tables and blocks are released and nobody else's |
| ProcessPages.Lifetime | src/process.c:44-180 | new, prepare and free in a row leave every extent as it was, apart from those the kernel heap or the kernel table gained, and every block of the kernel heap handed out as it was, with its size |
| LinkedList.RemoveFirstMembers | src/list.c:81-117 | on a list without duplicates, removing an element leaves exactly the others |
| LinkedList.List.Find | src/list.c:33-43 | the first node with the data, or NULL exactly if there is none |
| LinkedList.List.Insert | src/list.c:45-59 | the data becomes the first element; head and last stay right |
| LinkedList.List.InsertAfter | src/list.c:61-79 | the data goes right after the node, or first if the node is NULL; head and last stay right |
| LinkedList.List.Remove | src/list.c:81-117 | the first occurrence and only that is unlinked; the result says whether there was one; head and last stay right |
| Schedule.AddKeepsOrder | src/schedule.c:85-126 | adding keeps the list in order of vruntime and without duplicates, and adds exactly the one process unless it is idle |
| Schedule.RemoveKeepsOrder | src/schedule.c:129-147 | removing keeps the order |
| Schedule.PopIsLeast | src/schedule.c:171-206 | on a sorted list the process popped is eligible and of least vruntime among the eligible; NULL exactly when none is eligible |
| Schedule.Scheduler.Add | src/schedule.c:85-126 | the list becomes the sorted insertion, before the first process whose vruntime is not smaller |
| Schedule.Scheduler.Remove | src/schedule.c:129-151 | the process leaves the list; the result says whether it was on it |
| Schedule.Scheduler.Pop | src/schedule.c:171-206 | the first eligible process is returned and removed |
| Schedule.Scheduler.Run | src/schedule.c:208-215 | the process is current on the hart, marked and listed |
| Schedule.Scheduler.Park | src/schedule.c:221-238 | the current process is charged the time since it was started, its vruntime raised by exactly that unless 64 bits wrap, taken off the hart and put back in order; no other field and no other process changes; nothing happens without one |
| Schedule.Scheduler.RunThenPark | src/schedule.c:208-239 | a process run at one time and parked at another has its vruntime raised by exactly the difference |
| HartScheduling.ParkAlone | src/schedule.c:221-239 | without interference the single steps come to what the method for parking is proved to do |
| HartScheduling.InvCanStep | src/schedule.c:171-270 | in every reachable state a hart's next step touches only allocated processes |
| HartScheduling.HartStepKeepsInv | src/schedule.c:208-270 | every step of every hart keeps the invariant |
| HartScheduling.SpawnAddKeepsInv | src/console.c:388-416 | so does the console adding a process |
| HartScheduling.InvOnRuns | src/schedule.c:171-270 | the invariant holds at every moment of every interleaving |
| HartScheduling.CurrentOnOneHart | src/schedule.c:208-238 | no process is ever current on two harts |
| HartScheduling.ListStaysSound | src/schedule.c:21-56 | the list is always in order, without duplicates and without freed processes or idle ones, whose identifiers are at most 8; user code runs only in a process marked as running on its hart |
| HartScheduling.ExitedIsGone | src/syscall.c:117-125 | when an exiting process is freed it is on no list and no hart refers to it |
| HartScheduling.PopTakesLeast | src/schedule.c:256-264 | a hart looking for work takes a process that is on no hart and running, or asleep with its time come, of least vruntime among these, or its idle process exactly if there is none |
| HartScheduling.NoProcessLost | src/schedule.c:221-270 | until it is freed a process whose identifier is above 8 is listed, held by a hart or being built |
| HartScheduling.StrandedIffFailed | src/schedule.c:256-268 | in every run exactly the processes whose launch failed are stranded: listed as on a hart that is not going to park them, and never eligible again |
| HartScheduling.StrandedStays | src/schedule.c:185-199 | a stranded process stays so with every step and is never eligible |
| ProcessHistories.ChargedForItsTime | src/schedule.c:215-235 | in every run, whatever other harts do, a process is charged for exactly the time from the start its hart recorded to the parking that ends it |
| ProcessHistories.OnlyParkingCharges | src/schedule.c:235 | no other step of any hart changes what a process has been charged for |
| ProcessHistories.SleepsUntilTaken | src/syscall.c:133-139 | in every run a process that goes to sleep stays asleep until a hart takes it, and none takes it before its time |
| ProcessHistories.SleeperIsReadyIff | src/schedule.c:185-196 | once parked, a sleeper is listed and can be taken exactly from its time on |
| ProcessHistories.DeadNeverRuns | src/ctrap.c:41-45 | in every run a process that exited or was killed is never run or taken again until it is freed |
| Launching.NoneStranded | src/schedule.c:218 | if launches are starts in a run of the firmware in which each hart is started by itself only, no process is ever stranded |
| OrderedMap.Map.Get | src/map.c:40-58 | the value bound to the key, or NULL if none is |
| OrderedMap.Map.Insert | src/map.c:60-103 | exactly the key's binding changes; true exactly if the key was there |
| OrderedMap.HungKeepsTree | src/map.c:79-97 | a leaf hung where the search ended keeps the search tree |
| OrderedMap.MissIfNoChild | src/map.c:45-57 | a search that runs out of nodes means the key is in no node |
| OrderedMap.FreeNode | src/map.c:21-34 | each round frees a node not freed before and forgets none |
| OrderedMap.Map.Free | src/map.c:12-38 | the worklist, NULL entries included, frees every node exactly once and ends |
| FilePath.DeescapeName | src/filepath.c:9-40 | the name without the backslashes that escape something |
| FilePath.DeescapeUndoes | src/filepath.c:9-40 | deescaping undoes putting a backslash before each slash and each backslash, on every name |
| FilePath.SplitPath | src/filepath.c:42-126 | "/" exactly if the path is absolute, then the non-empty pieces between unescaped slashes in order, exactly for the paths without an escaped slash right before a separator |
| FilePath.ParsedIsNamesIff | src/filepath.c:67-71 | on every other path the parser gives something else, as its names then hold more slashes than were escaped |
| FilePath.PlainNames | src/filepath.c:42-126 | of a path without backslashes, the names after the root are its non-empty slash-free pieces |
| FilePath.NamesOfEscaped | src/filepath.c:42-126 | any non-empty names, escaped and each after a slash, are a path that stands for the root and these names |
| FilePath.ParsedOfEscapedIff | src/filepath.c:67-71 | the parser gives them back exactly if no name but the last ends in a slash |
| FilePath.JoinedFits | src/filepath.c:150-180 | the second pass never writes past the buffer sized by the first; a NUL is left exactly if the first name is not "/" |
| FilePath.RootFirstIff | src/filepath.c:67-80 | the parser gives the first name "/" exactly to absolute paths and to an escaped slash alone |
| FilePath.NulFitsIff | src/filepath.c:150-180 | so the joined path has a NUL exactly if the first path is neither of these |
| FilePath.CountBytes | src/filepath.c:150-159 | the first pass counts as specified |
| FilePath.WriteLists | src/filepath.c:165-180 | the second pass writes the joined names from the start of the buffer and nothing else |
| FilePath.JoinPaths | src/filepath.c:128-185 | for any paths the buffer holds the joined names and NULs after them, if there is room for one; no write is outside it |
| FilePath.SplitOfJoin | src/filepath.c:42-185 | splitting what was written gives the pieces of all the paths in order, after the root exactly if the first path is absolute, for non-empty paths without backslashes |
| MinixCache.EntriesIff | src/minix3.c:92-110 | the entries of a directory are exactly those in use in the blocks behind its zones |
| MinixCache.AllExpanded | src/minix3.c:193-198 | once the worklist is empty exactly the inodes reachable from the root have been expanded |
| MinixCache.AddKeepsCache | src/minix3.c:112-142 | making a node for an entry keeps the cache's shape, whether the inode was met before or not |
| MinixCache.Traversal.CacheBlock | src/minix3.c:106-143 | the entries of a block that are in use become children in order |
| MinixCache.Traversal.CacheCnode | src/minix3.c:65-148 | a directory gets a child for each of the entries its reads deliver; false exactly for a file that is no directory |
| MinixCache.Traversal.CacheInodes | src/minix3.c:150-204 | ends on every directory graph, as inode numbers have 32 bits; expands each reachable inode exactly once; the cache then has a child for every entry of every reachable directory |
| MinixCache.MetByParent | src/minix3.c:112-142 | on a tree of directories every directory is first met through its one entry that is no dot entry |
| MinixCache.FindMatches | src/minix3.c:240-247 | looking a name up among the children, last entry first, finds the entry of that name |
| MinixCache.WalksAgree | src/minix3.c:236-257 | from any node that stands for an inode, following names without dots through the cache and on the disk gives the same |
| MinixCache.GetFileAgrees | src/minix3.c:206-263 | an absolute path without dots, and without a separator after an escaped slash, is found exactly if following its pieces, without their escapes, through the directories on the disk finds it, and as the same inode |
| MinixCache.GetFile | src/minix3.c:206-263 | NULL unless the first name is the root, else the node reached by following the names; on a disk whose directories form a tree, an absolute path without dots and backslashes gives the inode that its pieces lead to on the disk, or NULL exactly if there is none; a relative one gives NULL |
| DiskImage.NumberOfDigits | src/minix3.c:334-341 | loading the base-256 digits of a number, the lowest first, gives the number |
| DiskImage.DigitsOfNumber | src/minix3.c:334-341 | and the bytes loaded are the digits of the number they give |
| DiskImage.DigitIs | src/minix3.c:334-341 | digit j is the quotient by 256^j modulo 256 |
| MinixRead.PointerDigits | src/minix3.c:334-341 | a zone pointer is below 2^32 and its four bytes are its base-256 digits, the lowest first |
| MinixRead.CapIsLoose | src/minix3.c:291-313 | the cap on a zone's bytes is never below what the zone has, so it never changes a result |
| MinixRead.CapFits | src/minix3.c:291-307 | the caps fit 64 bits |
| MinixRead.LeavesAreLookups | src/minix3.c:334-352 | without holes the data zones under an entry come in the order in which one pointer a level finds them |
| MinixRead.LookupThrough | src/minix3.c:334-352 | the number stored at place i of an indirect zone leads to the data zones from i times P^(level-1) on |
| MinixRead.SpansArePowers | src/minix3.c:403-420 | with P pointers a block the indirect zones reach P, P^2 and P^3 blocks |
| MinixRead.FileLayout | src/minix3.c:393-401 | logical blocks 0 to 6 are direct, then come the three indirect zones |
| MinixRead.ReadZone | src/minix3.c:265-356 | -1 exactly for zone 0 or a bad type; if everything under the zone is on the disk, the buffer gets the first min(count, available) bytes of the data zones in order; nothing outside the range asked for is ever written |
| MinixRead.ReadFile | src/minix3.c:382-439 | if the file is on the disk, the first min(count, available) bytes of its zones one after another, with count 0 or too large meaning the whole size; nothing past that range is ever written |
| MinixRead.FileIsRandomAccess | src/minix3.c:382-439 | of a file without holes the data read is that of random access by logical block |
| MinixRead.ReadIsWhole | src/minix3.c:382-439 | the read of a file without holes gives all the bytes wanted |
| MinixRead.ReadIsRandomAccess | src/minix3.c:382-439 | and each of them is the byte at its place in its logical block |
| MinixRead.ReadThroughPointer | src/minix3.c:382-439 | byte j of logical block 7 + k is byte j of the block whose number is stored at place k of the first indirect zone |
| VirtQueue.WrapIsHarmless | src/block.c:50-52 | a wrapped 16-bit index points into the ring where the unwrapped count does |
| VirtQueue.SlotsDiffer | src/block.c:161-190 | descriptors of requests within the window never coincide |
| VirtQueue.DriveKeepsInv | src/block.c:161-214 | every single write of a requester keeps the invariant |
| VirtQueue.FetchKeepsInv | src/block.c:193-214 | so does the device taking a head |
| VirtQueue.CompleteKeepsInv | src/block.c:49-54 | so does the device completing any request it works on, in any order |
| VirtQueue.AckKeepsInv | src/block.c:49-82 | so does each round of the interrupt handler |
| VirtQueue.InvOnRuns | src/block.c:38-214 | the invariant holds at every moment of every run with a bounded window |
| VirtQueue.ChainIsWhole | src/block.c:161-190 | following next from a published head visits exactly header, data and status until the request is acknowledged; of these the device may write the status and, for a read, the data |
| VirtQueue.ChainsAreDisjoint | src/block.c:161-190 | chains of different unacknowledged requests share no descriptor |
| VirtQueue.DeviceFetchesInOrder | src/block.c:193-214 | the head the device fetches next is that of the request issued next, across index wrap-around; it finds one exactly while a published request is not fetched |
| VirtQueue.AcknowledgedOnce | src/block.c:49-82 | each request is acknowledged at most once, after its completion, with its own request_info |
| VirtQueue.BlockQueue.PutRequest | src/block.c:157-214 | the writes in the source's order publish one more request and keep the invariant; the ring entry published heads its chain, and its information is recorded there |
| VirtQueue.BlockQueue.HandleIrq | src/block.c:38-83 | everything completed and not yet acknowledged is acknowledged in order of completion, each with its own information |
| BlockIo.AlignedCovers | src/block.c:113-121 | the aligned range covers the bytes asked for and less than two blocks more |
| BlockIo.ReachedIffSmall | src/block.c:113-126 | the device's byte is the one asked for exactly if it lies in the first block, or the block size is 512 and the sector number fits 32 bits |
| BlockIo.DataFitsIff | src/block.c:135 | the pages asked for a request's data, in 32-bit arithmetic, hold it exactly up to 2^32 - 4096 bytes, and are never more than needed |
| BlockIo.Read | src/block.c:113-135 | dst holds exactly the bytes at the address reached; on a device error it is as before and the request still succeeds |
| BlockIo.ReadVolume | src/block.c:254-256 | for blocks of 512 bytes and a whole number of them, a read is what the file systems take it for |
| BlockIo.Write | src/block.c:117-151 | exactly the bytes at the address reached change, the rest of the first and last sector is preserved |
| Ext4.BlockAddressIff | src/ext4.c:12-17 | the computed address is the block's exactly for blocks of 1024 bytes |
| Ext4.HeaderFields | src/include/ext4.h:303-310 | the number of entries and the depth are those whose digits the header's bytes are |
| Ext4.ExtentFields | src/ext4.c:349-354 | an extent starts as many blocks into the file, is as many blocks long and lies at the disk block as the digits in its entry's bytes say, the disk block from its two parts |
| Ext4.IndexFields | src/ext4.c:373-375 | a child lies at the disk block that the digits in its index entry's bytes say |
| Ext4.ExtentsIff | src/ext4.c:347-398 | the extents read are exactly those that some path of index entries leads to |
| Ext4.ReadExtent | src/ext4.c:323-402 | on trees whose index nodes are on the disk it ends; -1 exactly if a node below is not less deep than its parent; else the buffer holds every extent that is on the disk at its logical offset and the result is the sum of the lengths |
| Ext4.FillAt | src/ext4.c:353-364 | with disjoint extents every byte ends up as the disk has it, at its place in its own extent, and as it was if that extent is not on the disk |
| Ext4.FullReadGivesSize | src/ext4.c:323-402 | if disjoint extents cover the file, a full read returns its size |
| Ext4.FullReadIsFile | src/ext4.c:323-402 | and every byte of the buffer is the file's, while nothing past the size is written |
| Ext4.ReadByte | src/ext4.c:323-402 | with disjoint extents each byte of an extent on the disk that a path leads to is the disk's, as far behind the extent's address as it is behind the extent's start |
| Ext4.ReadLeafByte | src/ext4.c:347-364 | so for a leaf given by the digits of its fields: the byte at the address of ee_start's block plus its distance from block ee_block of the file |
| Hart.MoveKeepsInv | sbi/src/hart.c:20-103 | a step that touches only data its hart holds the lock of keeps the invariant of all harts |
| Hart.StepKeepsInv | sbi/src/hart.c:20-103 | every atomic step of every hart keeps the invariant, if harts are started after they have booted |
| Hart.StartingIffPending | sbi/src/hart.c:38-44 | while a hart's lock is free it is starting exactly if its software interrupt is pending |
| Hart.HistoryMeans | sbi/src/hart.c:33-102 | a history the protocol allows has each start of a stopped hart directly followed by its own handling |
| Hart.StartsAreHandledOnce | sbi/src/hart.c:33-102 | in every run each start of a stopped hart is consumed by one handling with its target and scratch before anything else happens to the hart, and every handling consumes the start right before it |
| Hart.HandlerFindsStart | sbi/src/hart.c:83-90 | the handler always finds its hart starting |
| Hart.OneHolder | sbi/src/lock.c:4-20 | two harts never hold the same lock |
| HartBoot.FineOnRuns | sbi/src/hart.c:20-103 | locks and statuses stay consistent in every run, even if harts are started before they have booted |
| HartBoot.OwnStartFailsIff | sbi/src/hart.c:27-36 | a hart that starts itself is turned down exactly if another hart is then starting it and holds its lock |
| HartBoot.HandledAsGivenIff | sbi/src/main.c:76-78 | in every run the target handled is that of the start exactly if the hart had left its boot code when the start wrote it, or it is the 0 the boot code writes; the scratch value exactly if the boot code had written its own, or it is that |
| HartBoot.BootedIsHandledAsGiven | sbi/src/hart.c:33-41 | a start whose check finds the hart booted is handled as given in every run |
| HartBoot.StartIsLost | sbi/src/main.c:76-78 | from every initial state there is a run in which hart 1 handles a start with the boot values instead of the target and scratch it was given |
| Locks.SemaphoreKeepsUnits | sbi/src/lock.c:23-43 | value, holders and pending undos add up to the same number after every step, without wrap-around |
| Locks.HoldersNeverExceed | sbi/src/lock.c:23-43 | in every run the holders never exceed the initial value |
| Locks.TryDownSucceedsIff | sbi/src/lock.c:23-33 | a trydown succeeds exactly if holders and pending undos together leave a unit |
| Locks.UndoTurnsAway | sbi/src/lock.c:23-33 | a run in which a trydown fails although nobody holds the only unit |
| Locks.BarrierHolds | sbi/src/lock.c:46-56 | no hart is through before the release, and a waiting hart blocks exactly until then |
| Locks.ReleaseIsForGood | sbi/src/main.c:42-70 | after the release no waiting hart ever blocks again |
| Paint.StepTowards | user/paint.c:133-166 | a step moves towards the end on each axis that is off, never past it, by at most one on the shorter axis, and on the longer one as far as the straight line goes for that one, or a brush less one if that is more than a brush |
| Paint.StepIsCloser | user/paint.c:130-170 | such a step lowers the distance and leads to a rectangle that overlaps or shares an edge with the last |
| Paint.DrawLine | user/paint.c:107-174 | ends; the filled rectangles form a connected chain from start to end, all inside the flushed rectangle, which is the smallest around the two |

## Left out

- ProcessPages.Process.Prepare: assumes enough free pages for tables, by the bound of `TablesFor`, because `page_zalloc` does not test for NULL before zeroing (src/page_alloc.c:136-137); a missing run for a stack ends the model's call with false, where the source would zero address NULL. What is said of the process's table is for objects of fewer than 2^27 pages; the registers set in the frame (src/process.c:160-177) are not modelled.
- KernelHeap.Kernel.GrowWindow: without a run of free pages it promises only the model's way out, false with nothing changed; the source then zeroes memory from address NULL, by a length it reads from outside the bookkeeping bytes.
- KernelHeap.Kernel.Kmalloc: without a fit or a run of free pages it promises only the same way out, None with nothing changed. It assumes the request does not wrap, within the bounds of `AlignedCoversIff` and, if nothing fits, `GrowthCoversIff`; if it grows, it assumes free pages for the missing tables and a window that does not reach the top of the address space.
- Mmu.PageMapper.Map: mappings carry at least one of read, write and execute; without any the source writes an entry that later walks follow as a table.
- Mmu.PageMapper.MapMany: ranges that reach into the last page of the 64-bit address space or past its end, where the source's loop does not end or maps nothing.
- HartScheduling.HartStepKeepsInv: the saved registers are not modelled, so nothing is said about a process being resumed before its registers are saved (src/schedule.c:239-242); idle processes make no system calls. Whether a hart starts is a choice of the environment.
- HartScheduling.CurrentOnOneHart: process identifiers are arbitrary: a process whose identifier wrapped to 8 or less counts as idle and is never listed, as in the source.
- MinixCache.GetFileAgrees: only for paths without dot entries, since nodes of dot entries have no children; directory entries are those of the ten zones read as direct zones, as the source does, and names are strings; the graph is the one the reads deliver.
- MinixRead.ReadZone: says nothing of the bytes read where something under the zone is not on the disk; where the file has holes the reader leaves them out, and the contract says so.
- BlockIo.Read: assumes the pages for the request's data are there, since the result of `page_alloc` is not tested (src/block.c:135), and at most 2^32 - 4096 bytes of it.
- BlockIo.Write: assumes the same.
- DiskImage.BlockRead: the file systems' reads are those of a device with blocks of 512 bytes, as `BlockIo.ReadVolume` says.
- Ext4.ReadExtent: assumes that no extent starts past the bytes asked for (src/ext4.c:355-356 would wrap around), that entries lie inside their node and that the index nodes are on the disk (or the reader would follow whatever its buffer holds); it says nothing of extents marked as not yet written, and takes one of length 0 for nothing, where the driver would ask `page_alloc` for 0 pages.
- Hart.StepKeepsInv: control and status registers are not modelled; a pending software interrupt may be taken at any time while a hart runs lower-privileged code.
- Paint.DrawLine: for two rectangles of one size on the screen; brushes of different sizes can leave the flushed rectangle.
- VirtQueue.BlockQueue.PutRequest: only reads and writes, as a flush records no request information (src/block.c:195-208); the environment keeps the window of unacknowledged requests within the queue.
- Locks around whole functions of the memory components make each of their methods one atomic step; interleavings inside them are modelled only for the scheduler, the virtqueue and the hart code.
- ELF loading, system calls other than exit and sleep, the console, printing, random numbers, the input and display drivers, PCI, PLIC and UART: plumbing without invariants across functions.
- ext4's directory cache: the same algorithm as the Minix one, which is modelled.
- The bit set, string and memory routines: they would only add easy members.
