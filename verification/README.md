# F7LY kernel cores, modelled and proved in Dafny

F7LY is a C++ kernel for RISC-V and LoongArch. This project models the cores of that kernel whose
correctness rests on an invariant over a whole run, and proves those invariants. Check everything with
`dafny verify dfyconfig.toml`.

| core | files |
|---|---|
| Sorting | `ElementBuffer.dfy`, `QuickSort.dfy` |
| Buddy allocator | `Dyadic.dfy` (binary paths and powers of two), `Words.dfy` (32-bit words), `BuddyTree.dfy`, `Buddy.dfy` |
| Page reference counts | `PhysicalMemory.dfy` |
| Copy-on-write | `Frames.dfy` (who owns a frame), `Cow.dfy` (what processes see), `ForkSteps.dfy`, `Teardown.dfy` (the end of an address space), `AddressSpaces.dfy` (the operations), `PageCounts.dfy` (the tie to the page manager) |
| File-page cache | `CacheRange.dfy`, `PageCache.dfy` (the protocol), `CacheShard.dfy` (map and LRU list), `CacheRefs.dfy` (page references) |
| Address-space identifiers | `Asid.dfy` |
| Futexes | `Futex.dfy` (the machine and its invariants), `FutexRuns.dfy` (what waits and wakes return and do) |
| Pipes | `Pipe.dfy` |
| Devicetree walker | `Fdt.dfy`, `FdtTree.dfy` |
| Scheduler bookkeeping | `Scheduler.dfy` |
| Kernel heap | `Liballoc.dfy` (blocks in chunks), `KernelHeap.dfy` (chunks on the buddy allocator) |
| Boot-time page pool | `BootMemory.dfy` |

## How the code is modelled

Code that updates arrays, fields and tables in place is a class or a method with `modifies`, proved
against a function or a predicate of the old state. Code that runs on several CPUs between lock operations
is a step machine whose runs are sequences of steps; one step is one critical section, or one access made
outside all locks. The machines of the page cache, the identifiers and the futexes are of this kind, and so
is the system of address spaces in `Cow.dfy`, whose fault, map, fork and unmap steps are what the methods of
`AddressSpaces.dfy` compute. Interior page tables are frames like any other: a walk takes them from the page
manager, and each has the count one.

What the code gets from outside is a parameter: the frames the allocator offers a fault, a copy or a
walk, what other threads do while a pipe lock is free, which keys addresses resolve to.

Standing assumptions, all taken from the code's own comments or contracts:

- Page cache: a writer changes only bytes of the range it announced, a reader's byte comes from the file as
  it is at that moment, and the 64-bit sequence does not come full circle during one read.
- Copy-on-write: shared mappings are not in the tables (they are copied elsewhere). `other` counts the owners
  of a frame that are not in the model, and may change between any two steps of a run. `blocks` are the frames
  of allocations of several pages; no page table maps them.
- Identifiers: an identifier is retired only when no CPU runs it; a CPU creates cache entries only for the
  space it runs; the retirement clock does not wrap.
- Boot memory: rounding a range end up to a page does not overflow.
- Devicetree: addresses do not wrap at 2^64.

Where the code and its promise part, the model follows the code. A lemma or method states the exact
condition, and a second one gives a state at which the promise fails:

- `CacheRange.SelectsAllMet`, with `CacheRange.LastPageMissed`;
- `PageCache.CacheAlwaysExact`, with `PageCache.LastPageStale`;
- `Words.NextPowerOfTwoIsLeast`, where every word above 2^31 fails;
- `Pipe.Pipe.SetPipeSize`, with `Pipe.ResizeToFull`;
- `Scheduler.Scheduler.SetTaskState`, with `Scheduler.RunningWithoutHome`;
- `Cow.ForkApartExactly`, with `Cow.OutsideAliasShared`;
- `Cow.OverlayExactly`, with `Cow.OverlayLosesReference`;
- `ForkSteps.AllOrNothing`, with `ForkSteps.ReservedPageStays`;
- `ForkSteps.TablesStay`, with `ForkSteps.NewTablesStay`;
- `Teardown.TeardownExactly`, where every space with an entry of a counted frame left fails;
- `AddressSpaces.CopyRangeExact`, with `AddressSpaces.LastPageLeft`;
- `FdtTree.RoundTrip`, with `FdtTree.MisalignedFails`.

## Model

| member | source | states |
|---|---|---|
| `QuickSort.Quicksort` | kernel/libs/qsort.cc:86-229 | for every count, element size and comparator that is a total preorder, the buffer ends as a sorted permutation of itself, with no access outside it |
| `QuickSort.QuicksortPass` | kernel/libs/qsort.cc:95-178 | the pass permutes the elements, leaves any two elements five or more places apart in order, and never outgrows its 64-slot stack |
| `QuickSort.DepthBound` | kernel/libs/qsort.cc:48-59 | ranges whose sizes halve with depth number at most 62 for any count that fits size_t |
| `QuickSort.RoundKeepsHalving` | kernel/libs/qsort.cc:153-176 | pushing the larger half keeps every range at depth d within n / 2^d elements |
| `QuickSort.RoundKeepsPending` | kernel/libs/qsort.cc:103-177 | a round keeps every pending range walled off from the rest, and every far-apart pair ordered or inside one pending range |
| `QuickSort.RoundWorks` | kernel/libs/qsort.cc:103-177 | a round strictly lowers the work left, so the outer loop ends |
| `QuickSort.MedianOfThree` | kernel/libs/qsort.cc:107-123 | first, middle and last element end in order, by a shuffle inside the range |
| `QuickSort.CollapseWalls` | kernel/libs/qsort.cc:125-151 | the range is shuffled so that one side is at most the pivot and the other at least, and the unguarded scans stay in the range |
| `QuickSort.NextRange` | kernel/libs/qsort.cc:153-176 | short halves are dropped, the longer of two long halves is stacked and the other is next; stack and current range hold exactly the halves kept |
| `QuickSort.LeastIsEarly` | kernel/libs/qsort.cc:180-203 | after the pass, the smallest of the first five elements is the smallest of all |
| `QuickSort.PlaceSentinel` | kernel/libs/qsort.cc:189-203 | a permutation that puts a smallest element first |
| `QuickSort.InsertOne` | kernel/libs/qsort.cc:205-228 | with a smallest element first, the unguarded backward scan stays in the array and the sorted prefix grows by one |
| `QuickSort.InsertionPass` | kernel/libs/qsort.cc:180-228 | what the quicksort pass leaves becomes sorted |
| `ElementBuffer.Swap` | kernel/libs/qsort.cc:27-36 | byte-wise swapping exchanges exactly two elements |
| `ElementBuffer.Rotate` | kernel/libs/qsort.cc:213-226 | the column-by-column byte moves rotate one element into its slot and shift those between |
| `Words.NextPowerOfTwoIsLeast` | kernel/mem/buddysystem.cc:16-27 | the bit-smearing result is the least power of two not below x exactly when x is at most 2^31; above that it is 0 |
| `BuddyTree.StateMeaning` | kernel/mem/buddysystem.cc:168-186 | a node is unused exactly when all its pages are free, and used or full exactly when none is |
| `BuddyTree.TreeIsFunctionOfLive` | kernel/mem/buddysystem.cc:92-131 | equal live blocks mean equal trees, whatever the history, so freeing what was allocated restores the tree |
| `BuddyTree.LiveIsFunctionOfTree` | kernel/mem/buddysystem.cc:156-333 | the live blocks can be read off the tree |
| `Buddy.BuddySystem.Initialize` | kernel/mem/buddysystem.cc:46-131 | the built tree is the canonical tree of no live block over the real pages |
| `Buddy.BuddySystem.AllocateFromNode` | kernel/mem/buddysystem.cc:188-231 | below a node, the search takes the lowest free block of the size and leaves the subtree canonical, or there is none and nothing changed |
| `Buddy.BuddySystem.Alloc` | kernel/mem/buddysystem.cc:278-307 | rounds to the least power of two, returns the lowest aligned free run of that length, fails exactly when there is none, and then changes nothing |
| `Buddy.FirstFitDecides` | kernel/mem/buddysystem.cc:188-231 | a first fit and "no aligned run is free" exclude each other |
| `Buddy.MaxFreeSizeIsMax` | kernel/mem/buddysystem.cc:359-375 | the recursive maximum over the tree is the size of the largest free block |
| `Buddy.BuddySystem.GetMaxFreeBlockPages` | kernel/mem/buddysystem.cc:359-380 | a request for 2^k pages can be met exactly when 2^k is at most the reported maximum |
| `Buddy.BuddySystem.QueryPage` | kernel/mem/buddysystem.cc:387-443 | tells whether a page exists and is free, and otherwise the offset and size of the live block that holds it |
| `Buddy.BuddySystem.FreeFromNode` | kernel/mem/buddysystem.cc:233-276 | releases the block that starts at the target, if there is one below the node, and leaves the subtree canonical |
| `Buddy.BuddySystem.Free` | kernel/mem/buddysystem.cc:309-333 | frees exactly the live block that starts at the offset; any other argument changes nothing |
| `PhysicalMemory.PhysicalMemoryManager.TryAllocPages` | kernel/mem/physical_memory_manager.cc:699-748 | a first-fit block whose pages all had count zero, now one each; the internal panics cannot be reached |
| `PhysicalMemory.PhysicalMemoryManager.TryAllocPage` | kernel/mem/physical_memory_manager.cc:641-676 | the lowest free page with count one, or no page is free and nothing changed |
| `PhysicalMemory.PhysicalMemoryManager.FreePage` | kernel/mem/physical_memory_manager.cc:790-856 | panics exactly on the listed caller errors; otherwise drops one reference, or frees the page or the whole block |
| `PhysicalMemory.PhysicalMemoryManager.FreePages` | kernel/mem/physical_memory_manager.cc:858-897 | panics unless the page starts a live block of any size whose pages all have count one; otherwise frees that block and clears its counts |
| `PhysicalMemory.PhysicalMemoryManager.RetainPage` | kernel/mem/physical_memory_manager.cc:899-916 | adds a reference exactly when the page is in range with a count above zero and below the 16-bit maximum |
| `PhysicalMemory.PhysicalMemoryManager.RetainPagesBatch` | kernel/mem/physical_memory_manager.cc:918-945 | the batch is the fold of the single retains, and bit i tells whether retain i worked |
| `PhysicalMemory.PhysicalMemoryManager.ReleasePagesBatch` | kernel/mem/physical_memory_manager.cc:947-1010 | the batch is the fold of the single releases, and panics exactly when some page in range is not a single-page allocation at its turn |
| `PhysicalMemory.ReleaseUndoesRetain` | kernel/mem/physical_memory_manager.cc:790-916 | a release after a retain gives the state back |
| `PhysicalMemory.BlockFreeUndoesAlloc` | kernel/mem/physical_memory_manager.cc:699-897 | a block just allocated can be given back whole, and that restores every count and the live blocks |
| `PhysicalMemory.ReleaseKeepsOk` | kernel/mem/physical_memory_manager.cc:790-856 | counts stay positive exactly on the pages of live blocks |
| `PhysicalMemory.FreeIsZeroCount` | kernel/mem/physical_memory_manager.cc:633-639 | the free pages are exactly those with count zero |
| `Frames.RetainTally` | kernel/mem/physical_memory_manager.cc:899-916 | a retain moves the count and the references in hand together |
| `Frames.WalkTally` | kernel/mem/riscv/pagetable.cc:137-212 | a walk that makes the interior tables it misses, or stops without a frame for one, keeps every count equal to its owners, each table the only owner of its frame; if it gets through, both tables are there |
| `Frames.MappedNoTable` | kernel/mem/riscv/pagetable.cc:176-195 | no page-table entry maps an interior table or a page of a longer block |
| `Frames.MapTally` | kernel/mem/virtual_memory_manager.cc:427-487 | a new page-table entry, its interior tables made, spends one reference in hand |
| `Frames.ClearTally` | kernel/mem/virtual_memory_manager.cc:1630-1641 | clearing an entry puts its reference in hand |
| `Frames.OverlayTally` | kernel/mem/virtual_memory_manager.cc:1445-1460 | moving an overlay entry spends a reference to the new frame and frees the one to the old |
| `Frames.TallyDetermines` | kernel/mem/virtual_memory_manager.cc:1798-1844 | with the same entries, overlays and interior tables and nothing in hand, every count is what it was |
| `Frames.SoleOwner` | kernel/mem/virtual_memory_manager.cc:1407-1429 | a count of one, or of two with the area's own overlay entry, leaves no room for a second page-table entry |
| `Cow.ResolveOutcome` | kernel/mem/virtual_memory_manager.cc:1369-1470 | a resolved fault leaves an entry that keeps its flags but for being writable and not copy-on-write, whose frame nobody else maps, and changes nobody's view; a failed one changes no table, overlay or count; counts stay exact either way |
| `Cow.ResolveExactly` | kernel/mem/virtual_memory_manager.cc:1369-1470 | a write fault is resolved if and only if the entry is the user's, marked copy-on-write and of a counted frame, and either no other entry, overlay, table or outside owner has the frame (an object's page having its own overlay entry) or a free frame is offered and, for an object's page, there is room for the overlay entry |
| `Cow.OverlayExactly` | kernel/mem/virtual_memory_manager.cc:1436-1467 | copying a page of an object's private mapping keeps the counts if and only if the overlay entry it replaces, if any, named the copied frame |
| `Cow.OverlayLosesReference` | kernel/mem/virtual_memory_manager.cc:1436-1467 | a state with exact counts in which that copy breaks them |
| `Cow.ResolveKeeps` | kernel/mem/virtual_memory_manager.cc:1369-1470 | resolving a fault keeps every invariant and every view |
| `Cow.StoreKeeps` | kernel/mem/virtual_memory_manager.cc:1369-1470 | a store that goes through is seen at its address and in no other address space; one that faults for good is not seen at all |
| `Cow.StoreExactly` | kernel/mem/virtual_memory_manager.cc:1369-1470 | a user store goes through if and only if the entry is the user's and writable or such that its fault can be resolved |
| `Cow.ForkKeeps` | kernel/mem/virtual_memory_manager.cc:1748-2013 | after sharing at fork, every address shows what copying at fork would show, and counts and separation hold |
| `Cow.ForkPermissions` | kernel/mem/virtual_memory_manager.cc:1936-1977 | after a fork, parent and child have the parent's old user bit and other flags; of a counted frame neither may write, and both are copy-on-write exactly if the parent could write or was copy-on-write; of a frame without a count both keep the permissions |
| `Cow.ForkThenStore` | kernel/mem/virtual_memory_manager.cc:1926-2007 | where the parent could store before the fork, parent and child can store after it whenever a free frame is offered |
| `Cow.ForkStoresOnly` | kernel/mem/virtual_memory_manager.cc:1926-2007 | and a store after the fork goes through only where the parent's page was the user's and writable or copy-on-write |
| `Cow.ForkApartExactly` | kernel/mem/virtual_memory_manager.cc:1926-1961 | after a fork of a range the spaces are apart if and only if no writable entry of the parent outside the range maps a counted frame of the range |
| `Cow.OutsideAliasShared` | kernel/mem/virtual_memory_manager.cc:1926-1961 | a fork with such an alias, after which the parent can write a frame the child maps |
| `Cow.UnmapKeeps` | kernel/mem/virtual_memory_manager.cc:1553-1648 | unmapping keeps every invariant and hides exactly the unmapped pages |
| `Cow.FailedKeeps` | kernel/mem/virtual_memory_manager.cc:1798-1844 | a fork that fails behind no reserved page of the parent keeps every invariant and hides exactly the pages of the child below the failed one |
| `Cow.MapNewKeeps` | kernel/mem/virtual_memory_manager.cc:1073-1205 | a new page appears at its address alone, or the attempt fails at the page or at a table and nobody sees a change; counts stay exact either way |
| `Cow.MapNewExactly` | kernel/mem/virtual_memory_manager.cc:1073-1205 | a new page is mapped if and only if the address has none and there are different free frames for it and for each missing interior table, and its entry has the flags asked for, accessed and dirty |
| `Cow.RunKeeps` | kernel/mem/virtual_memory_manager.cc:1369-2013 | over every run of stores, new pages, forks, forks that fail behind no reserved page, unmaps and steps of other owners, each step shows what the machine that copies at fork shows, stores and maps going through exactly when they can, and every count equals its owners |
| `Cow.Isolation` | kernel/mem/virtual_memory_manager.cc:1369-2013 | over every such run, what an address space sees changes only by its own stores, maps and unmaps and by forks into it, failed or not |
| `Cow.TablesUnmapped` | kernel/mem/riscv/pagetable.cc:137-212 | over every run, no page-table entry maps the frame of an interior table |
| `ForkSteps.ForkedShare` | kernel/mem/virtual_memory_manager.cc:1926-1977 | sharing the next page extends the fork by one page |
| `ForkSteps.ForkedCopy` | kernel/mem/virtual_memory_manager.cc:1993-2007 | copying a page without a count into a free frame extends the fork by one page |
| `ForkSteps.RecordCovers` | kernel/mem/virtual_memory_manager.cc:1778-1797 | the merged ranges hold exactly the pages that lost write permission |
| `ForkSteps.FailRestores` | kernel/mem/virtual_memory_manager.cc:1798-1844 | unmapping the child below the failed page and reopening the recorded pages gives the parent's table back exactly, touches no other space, and leaves of the child only what the fork mapped on reserved pages and the interior tables it made |
| `ForkSteps.AllOrNothing` | kernel/mem/virtual_memory_manager.cc:1748-2013 | a failed copy leaves all entries and the count of every frame that did not become an interior table as they were if and only if the child had no entry below the failed page outside reserved pages and the parent none on a reserved page of the copied part; no byte of a frame in use changes in any case |
| `ForkSteps.ReservedPageStays` | kernel/mem/virtual_memory_manager.cc:1605-1620 | a fork that fails behind a reserved page: the child keeps the page and its reference |
| `ForkSteps.TablesStay` | kernel/mem/virtual_memory_manager.cc:1798-1844 | under that condition every count is back if and only if the copy made no interior table; it made none if the child had the tables of every page up to the failed one, and only if it had those of every page before it |
| `ForkSteps.NewTablesStay` | kernel/mem/virtual_memory_manager.cc:1798-1844 | a fork into an empty child that fails at its second page: the entry and its reference go, two interior tables stay |
| `Teardown.MapRooted` | kernel/mem/riscv/pagetable.cc:137-212 | mapping any page that three levels reach, or failing on the way, keeps every lower table under its upper one and every entry in a lower table |
| `Teardown.TeardownExactly` | kernel/mem/riscv/pagetable.cc:241-268 | freeing the interior tables of a space keeps every count equal to its owners if and only if no entry of a counted frame was left in them |
| `Teardown.FailedForkUndone` | kernel/mem/virtual_memory_manager.cc:1798-1844 | a fork into a new child that fails behind no reserved page, and the teardown of that child, leave every entry, interior table, overlay and count as they were |
| `AddressSpaces.AddressSpaces.ResolveCowPage` | kernel/mem/virtual_memory_manager.cc:1369-1470 | computes the resolve step: reuse, copy, overlay hand-over and each failure, with no panic of the page manager |
| `AddressSpaces.AddressSpaces.Walk` | kernel/mem/riscv/pagetable.cc:137-212 | takes the missing interior tables from the page manager top down, and stops when one cannot be had, keeping those made |
| `AddressSpaces.AddressSpaces.MapPages` | kernel/mem/virtual_memory_manager.cc:427-487 | maps a page that has no entry once its interior tables are there, with the flags given, accessed and dirty, and otherwise changes no entry |
| `AddressSpaces.AddressSpaces.MapNewPage` | kernel/mem/virtual_memory_manager.cc:1073-1205 | computes the step that maps a new page, giving the page back when the map fails, with no panic of the page manager |
| `AddressSpaces.AddressSpaces.ReleasePagesBatch` | kernel/mem/physical_memory_manager.cc:947-1010 | gives back a batch of references in hand; the page manager does the same and finds every page allocated on its own, so it does not panic |
| `AddressSpaces.AddressSpaces.VmUnmap` | kernel/mem/virtual_memory_manager.cc:1553-1648 | clears the entries of a range except reserved pages, in batches of 256, and gives exactly their references back without a panic of the page manager, or without freeing leaves exactly those to the caller; a single page unmapped without freeing may be reserved |
| `AddressSpaces.AddressSpaces.VmUnmapSparse` | kernel/mem/virtual_memory_manager.cc:1650-1733 | clears exactly the listed pages except reserved ones and gives exactly their references back, or without freeing leaves them to the caller; stops the kernel on more than 256 |
| `AddressSpaces.AddressSpaces.RetainCandidates` | kernel/mem/virtual_memory_manager.cc:1889-1909 | one reference for each candidate that can take one, told by the mask, with the count equation intact; the others' counts are full |
| `AddressSpaces.AddressSpaces.ReleaseUnconsumed` | kernel/mem/virtual_memory_manager.cc:1910-1919 | gives back exactly the references of the candidates not yet used |
| `AddressSpaces.AddressSpaces.ShareCandidate` | kernel/mem/virtual_memory_manager.cc:1930-1977 | takes the parent's write permission, makes the child's interior tables and maps the child exactly when the child has no entry and the tables can be had; otherwise puts the parent's entry and the reference back and keeps the tables |
| `AddressSpaces.AddressSpaces.DuplicateCandidate` | kernel/mem/virtual_memory_manager.cc:1993-2007 | gives the child its own copy of a page without a count exactly when the child has no entry and the frames can be had; otherwise leaves entries and counts as they were but for interior tables made |
| `AddressSpaces.AddressSpaces.CopyBatch` | kernel/mem/virtual_memory_manager.cc:1856-2008 | a batch of 32 pages extends the fork to its end, or stops with nothing in hand at a page that cannot be copied |
| `AddressSpaces.AddressSpaces.FailCopy` | kernel/mem/virtual_memory_manager.cc:1798-1844 | gives write permission back on exactly the recorded pages that still show the copy-on-write mark |
| `AddressSpaces.AddressSpaces.VmCopy` | kernel/mem/virtual_memory_manager.cc:1748-2013 | success is a fork of the rounded range and reports whether the parent lost a permission; failure at any page leaves every other space as before, the child cleared below that page but for what it got on reserved pages and the interior tables made for it, and the counts exact; it fails only at a page whose count is full, that the child has already, or for which a free frame is missing; the page manager never panics |
| `AddressSpaces.AddressSpaces.FreeWalk` | kernel/mem/riscv/pagetable.cc:241-268 | the two nested sweeps over 512 slots free every interior table of the space once and nothing else, without a panic of the page manager, and drop the entries left in them |
| `AddressSpaces.CopyRangeExact` | kernel/mem/virtual_memory_manager.cc:1762-1768 | the pages copied are those the range meets if and only if the rounded end of the range stays below 2^64 |
| `AddressSpaces.LastPageLeft` | kernel/mem/virtual_memory_manager.cc:1762-1768 | for every other range, its last page is met and not copied |
| `PageCounts.LinkedRetain` | kernel/mem/physical_memory_manager.cc:899-916 | retaining a frame in use works on both sides or on neither, and keeps the counts of the page-table code and of the page manager equal |
| `PageCounts.LinkedRelease` | kernel/mem/physical_memory_manager.cc:790-856 | releasing a reference in hand finds a page allocated on its own, so the page manager does not panic, and keeps the two sides equal |
| `PageCounts.LinkedAlloc` | kernel/mem/physical_memory_manager.cc:641-676 | so does taking a free frame |
| `PageCounts.ReleaseBatch` | kernel/mem/physical_memory_manager.cc:947-1010 | the page manager releases every batch of references in hand without a panic, and both sides agree afterwards |
| `PageCounts.RetainBatch` | kernel/mem/physical_memory_manager.cc:918-945 | both sides agree after a batch of retains of frames in use |
| `PageCounts.SameFree` | kernel/mem/physical_memory_manager.cc:641-676 | while both sides agree, a frame is free to copy into exactly when no live block holds its page |
| `CacheRange.SelectsAllMet` | kernel/proc/file_page_cache.cc:358-399 | every page that meets the byte range is selected if and only if the range does not end inside the last page of the byte space without starting there, or is a whole-file one |
| `CacheRange.LastPageMissed` | kernel/proc/file_page_cache.cc:379-399 | a concrete range that meets the last page and does not select it |
| `CacheRange.SelectsOnlyMet` | kernel/proc/file_page_cache.cc:358-399 | short of a whole-file invalidation nothing else is selected |
| `CacheRange.SequenceAliases` | kernel/proc/file_page_cache.cc:163-170 | two observed sequence values agree exactly when a multiple of 2^64 - 1 advances lie between |
| `PageCache.StepKeepsInv` | kernel/proc/file_page_cache.cc:505-764 | every step of readers, writers, invalidation and reclaim keeps the cache coherent, writers' pages uncached, the gate count exact and unexpired reads exact, apart from the last page of the byte space of files for which a writer announced a range whose invalidation misses it |
| `PageCache.CandidateExact` | kernel/proc/file_page_cache.cc:585-651 | a buffer that passes the publish check equals the file's page at that step |
| `PageCache.CacheAlwaysExact` | kernel/proc/file_page_cache.cc:505-942 | over every interleaving, each cached page equals the file's current bytes, unless it is the last page of the byte space and an earlier writer of the file announced a range whose invalidation misses it |
| `PageCache.LastPageStale` | kernel/proc/file_page_cache.cc:379-399 | for every such range and every reachable state with that page cached, a write the range allows leaves the cached page wrong |
| `PageCache.AcquiredExact` | kernel/proc/file_page_cache.cc:505-682 | under the same condition, a page handed out by a hit or a publish is exact at that step |
| `PageCache.EnabledExactly` | kernel/proc/file_page_cache.cc:505-764 | a read begins and a page is handed out exactly while no writer of the file is active; a page can be published exactly when all its bytes are there and the file's epoch is that of the read |
| `PageCache.PublishesExactly` | kernel/proc/file_page_cache.cc:585-651 | over every run, a page can be published if and only if all its bytes were received and the file was not changed or invalidated since the read began |
| `PageCache.DisturbanceDetaches` | kernel/proc/file_page_cache.cc:684-764 | beginning and ending a change and invalidating leave no cached page that meets the range, but for a last page the range misses, and take no other page short of a whole-file range |
| `CacheShard.PageShard.LruRemove` | kernel/proc/file_page_cache.cc:219-239 | unlinking takes exactly one entry out of the list the pointers spell |
| `CacheShard.PageShard.LruInsertHead` | kernel/proc/file_page_cache.cc:241-254 | linking puts the entry in front of that list |
| `CacheShard.PageShard.LruTouch` | kernel/proc/file_page_cache.cc:256-264 | the entry moves to the front, the others keep their order |
| `CacheShard.PageShard.TrimShard` | kernel/proc/file_page_cache.cc:299-307 | the least recently used entries go until the shard is within capacity, and the garbage is exactly those with exactly their references |
| `CacheShard.PageShard.Publish` | kernel/proc/file_page_cache.cc:653-675 | the new entry is in front, stays and owns the candidate's reference, the size is within capacity, and each entry that left is in the garbage once with its reference |
| `CacheShard.PageShard.ReclaimTail` | kernel/proc/file_page_cache.cc:309-347 | takes up to the limit from the tail, in order, with exactly their references |
| `CacheShard.PageShard.DetachMatching` | kernel/proc/file_page_cache.cc:407-432 | the full scan moves exactly the selected pages of the file, with their references, to the garbage, whatever order the map is visited in |
| `CacheShard.PageShard.DetachKey` | kernel/proc/file_page_cache.cc:434-445 | the per-page path moves exactly one key, with its reference, to the garbage |
| `CacheShard.StrategiesAgree` | kernel/proc/file_page_cache.cc:403-446 | both strategies leave the same cache, without exactly the pages of the file that meet the range, but for the last page of the byte space when the range misses it |
| `CacheRefs.CachePages.ReleaseGarbage` | kernel/proc/file_page_cache.cc:282-297 | gives back exactly the references of the detached entries, so that every count is again the entries that name the page and the references owned elsewhere |
| `CacheRefs.CachePages.AcquireHit` | kernel/proc/file_page_cache.cc:538-556 | a hit moves the entry to the front and gives the caller one reference, exactly when the count allows it |
| `CacheRefs.CachePages.PublishCandidate` | kernel/proc/file_page_cache.cc:635-675 | an entry published meanwhile wins and the candidate is given back; otherwise its first reference is the cache's and the caller gets another; on failure nothing is kept |
| `CacheRefs.CachePages.PublishReadahead` | kernel/proc/file_page_cache.cc:905-936 | a page read ahead gives its only reference to the cache, or back to the page manager when the key has an entry already |
| `CacheRefs.CachePages.InvalidateScan` | kernel/proc/file_page_cache.cc:407-432 | invalidation by scan gives back the references of the selected pages and no others |
| `CacheRefs.CachePages.InvalidatePages` | kernel/proc/file_page_cache.cc:434-445 | so does invalidation page by page |
| `CacheRefs.CachePages.Reclaim` | kernel/proc/file_page_cache.cc:309-347 | so does reclaim, for the entries used longest ago |
| `Asid.UserAsids.TryAllocate` | kernel/proc/tlb_mm.cc:49-71 | takes the first free identifier in cyclic order from the cursor, or there is none and nothing changed |
| `Asid.UserAsids.FinishReclaim` | kernel/proc/tlb_mm.cc:88-101 | frees exactly the retired identifiers whose epoch is not later than the flush's |
| `Asid.UserAsids.Retire` | kernel/proc/tlb_mm.cc:106-117 | moves an identifier from active to retired with a new epoch; ids out of range change nothing |
| `Asid.StepKeepsInv` | kernel/proc/tlb_mm.cc:49-117 | each step, with CPUs flushing one by one, keeps every cached entry owned by the holder of its identifier or its identifier retired, and not if the flush has passed that CPU |
| `Asid.HandedOutClean` | kernel/proc/tlb_mm.cc:49-117 | in every run, an identifier handed out is held by nobody else, run by no CPU and tags no cached entry on any CPU |
| `Asid.HitsOwnEntries` | kernel/proc/tlb_mm.cc:49-117 | in every run, a CPU hits only translations created by the space it runs |
| `Asid.ReclaimFrees` | kernel/proc/tlb_mm.cc:79-101 | in every run, a flush frees every identifier that was retired when it began |
| `Asid.AllocationMoves` | kernel/proc/tlb_mm.cc:49-104 | whatever the state, an allocation can take its next step: the first free identifier while there is one, and else the start of a flush, the flush of one more CPU or its end |
| `Futex.StepKeepsInv` | kernel/proc/futex.cc:289-852 | every interleaving of waits, wakes, requeues, timeouts, signals and stores keeps bucket ownership exact, sleepers registered, and threads outside a wait unregistered |
| `Futex.ScanFindsAll` | kernel/proc/futex.cc:352-382 | while a wake scans the bucket of a key, every thread committed to that key sleeps registered there |
| `Futex.WakeClears` | kernel/proc/proc_manager.cc:4366-4492 | a wake or requeue that ends with room to spare leaves nobody committed to the key |
| `Futex.NoLostWake` | kernel/proc/futex.cc:595-852 | in every run, whoever is committed to a key after such a wake saw the word as it was after the wake, or was moved there by a requeue |
| `Futex.WakeCounts` | kernel/proc/proc_manager.cc:4366-4492 | over every run, a wake has woken exactly as many threads as it counts, all parked on its key and all different, and a requeue has moved exactly as many sleepers as it counts to the second key and its bucket |
| `Futex.WakeDoesItsWork` | kernel/proc/proc_manager.cc:4366-4492 | a wake ends having woken all it was asked for or with nobody committed to its key, and a requeue to another key also having moved all it was asked to move or with nobody committed |
| `Futex.EagainWithoutSleep` | kernel/proc/futex.cc:400-428 | in every run, a wait about to return EAGAIN has not slept since it began |
| `FutexRuns.WaitReturns` | kernel/proc/futex.cc:384-653 | over every run, what a wait returns has its reason in that wait: EAGAIN a load that saw another value and no sleep; EFAULT a load that found no page; zero a sleep and then a wake that cleared the key, or a load with another value; EINTR a pending signal; ETIMEDOUT a deadline that passed; and the thread is registered nowhere |
| `FutexRuns.WokenReturns` | kernel/proc/futex.cc:642-651 | a thread whose key a wake cleared returns zero when it next runs with no signal pending |
| `FutexRuns.LoadsCommit` | kernel/proc/futex.cc:595-640 | a wait whose two loads find the same key with the expected value commits to that key, and a wait commits only to a key the load under the lock found with that value |
| `FutexRuns.CommittedSleeps` | kernel/proc/futex.cc:352-372 | and it goes to sleep on that key |
| `FutexRuns.RequeueChecked` | kernel/proc/futex.cc:799-833 | with its buckets locked, a wake scans if and only if no value is asked for or the word has it; else it returns with no bucket locked and no waiter touched |
| `FutexRuns.ScanEffect` | kernel/proc/proc_manager.cc:4366-4492 | a sleeper on the key is woken while threads are left to wake, then moved while threads are left to move, and else left asleep; threads on other keys are left alone |
| `Futex.InIndexOrder` | kernel/proc/futex.cc:792-815 | a thread that waits for a second bucket holds only lower ones |
| `Futex.SomeHolderMoves` | kernel/proc/futex.cc:792-815 | whenever a bucket is held, some holder is not waiting for a bucket |
| `FutexRuns.SomebodyMoves` | kernel/proc/futex.cc:289-340 | a running thread can take its next step unless it waits for a bucket, and then the holder of some bucket can: the buckets never deadlock |
| `Pipe.WrapIsRemainder` | kernel/proc/pipe.cc:240-246 | the wrapped position is the remainder the code computes |
| `Pipe.ConservedInOrder` | kernel/proc/pipe.cc:185-575 | bytes read followed by bytes stored are the bytes written, which is to say place by place in the order of the writes |
| `Pipe.Pipe.PushChunk` | kernel/proc/pipe.cc:346-367 | appends as long a prefix of the data as fits before the end of the buffer to the stored bytes and to the record of writes, keeping the ring in order |
| `Pipe.Pipe.PopChunk` | kernel/proc/pipe.cc:543-566 | takes as many of the oldest bytes as are asked for, stored and lie before the end of the buffer, at least one, and leaves the rest, keeping conservation |
| `Pipe.Pipe.SetPipeSize` | kernel/proc/pipe.cc:681-731 | succeeds exactly for sizes in range that hold the data; data and conservation are kept, and the write position is a slot if and only if there is room to spare |
| `Pipe.ResizeToFull` | kernel/proc/pipe.cc:681-731 | a pipe resized to exactly its contents has its write position behind the last slot |
| `Pipe.WriteAfterResize` | kernel/proc/pipe.cc:237-247 | there the next write stores no byte and moves the write position to the first slot |
| `Pipe.Pipe.Others` | kernel/proc/pipe.cc:185-731 | what other threads do in an unlocked window is the sequence of their critical sections, each with exactly its effect on stored bytes, positions, capacity and ends, and adds nothing to this thread's reads and writes |
| `Pipe.Pipe.AwaitData` | kernel/proc/pipe.cc:395-424 | waiting ends with data or the write end closed, or it gives up on an empty pipe with its write end open: killed, else EAGAIN exactly if it may not block, else EINTR exactly on a pending signal; it does not wait at all with data or a closed end, and a call that may not block uses no window |
| `Pipe.Pipe.ReadToUser` | kernel/proc/pipe.cc:448-575 | whatever other threads do in the unlocked windows, the bytes returned are this thread's takes in order; nothing is returned only for the reason told (killed, EAGAIN if it may not block, EINTR on a signal, each on an empty open pipe; EFAULT on a bad user range; 0 on an empty pipe with the write end closed), and less than asked only from a dry pipe or a bad range |
| `Pipe.Pipe.WriteFromUser` | kernel/proc/pipe.cc:268-386 | whatever other threads do in the unlocked windows, what this thread put in is a prefix of its data, of the returned length; it stops short only for the reason told (killed, EPIPE with the read end closed, EAGAIN or EINTR on a full pipe with nothing put in, EFAULT on a bad user range), and a closed read end on entry gives EPIPE or killed |
| `Pipe.Pipe.Read` | kernel/proc/pipe.cc:388-446 | the kernel-buffer read returns this thread's takes in order, the first bytes of what is stored when the wait ends, stops short only on an empty pipe, returns 0 for a positive length only with the write end closed, and fails only for the reason told, on an empty pipe with its write end open |
| `Pipe.Pipe.WriteInKernel` | kernel/proc/pipe.cc:185-266 | the kernel-buffer write puts in a prefix of its data, of the returned length, stops short only on a full pipe or for the reason told, and a closed read end on entry gives EPIPE or killed |
| `Pipe.Waiters.Note` | kernel/proc/pipe.cc:65-80 | counts the waiter, and remembers an identity exactly while it was noted first and every waiter since is that one |
| `Pipe.Waiters.Forget` | kernel/proc/pipe.cc:82-97 | takes one waiter off and keeps that relation |
| `Pipe.Waiters.WakeAll` | kernel/proc/pipe.cc:99-120 | wakes nobody only when nobody waits, and one thread exactly when it is the only waiter and its identity is known |
| `Fdt.FdtWalker.Next` | kernel/devs/dtb.cc:216-341 | yields the next event of the walk, or ends with the walk's verdict |
| `Fdt.ValidateFdtStructure` | kernel/devs/dtb.cc:333-341 | is true exactly when the walk of the block ends well |
| `Fdt.BoundedString` | kernel/devs/dtb.cc:160-174 | finds a string exactly when a NUL lies between its start and the end |
| `Fdt.WalkNests` | kernel/devs/dtb.cc:216-341 | on any bytes, the walk ends, its events nest with correct depths and close at depth zero when valid, and each is read from its own stretch of the block: the stretches stand at multiples of four in the block, follow each other with only NOP tokens between them, and hold the event's token value, name, length and value at their places; a valid walk ends at the end token |
| `Fdt.AlignRounds` | kernel/devs/dtb.cc:228-236 | the next multiple of four is the masked sum the code computes |
| `FdtTree.TokenReads` | kernel/devs/dtb.cc:242-318 | the walker reads each encoded token back and stops before the next multiple of four after it |
| `FdtTree.RoundTrip` | kernel/devs/dtb.cc:216-341 | for every tree, walking its encoding, with the token values of the Devicetree Specification, NOPs anywhere and anything after the end token, yields exactly its preorder events and is valid, if and only if the block lies at a multiple of four |
| `FdtTree.MisalignedFails` | kernel/devs/dtb.cc:228-236 | elsewhere the walk of any block that starts with a token yields nothing and fails |
| `Scheduler.Scheduler.SetTaskState` | kernel/proc/scheduler.cc:150-217 | no counter underflows, a task that becomes runnable without a home gets an allowed CPU, online if any allowed one is, and none such has a smaller load, and bitmaps and counters stay exact if and only if it is not a running task without a home that becomes runnable while some CPU is allowed |
| `Scheduler.RunningWithoutHome` | kernel/proc/scheduler.cc:171-196 | a task brought into that case from an exact start: its new home's counter does not move |
| `Scheduler.Scheduler.SetTaskPriority` | kernel/proc/scheduler.cc:219-246 | keeps bitmaps and counters exact |
| `Scheduler.Scheduler.SetTaskHomeCpu` | kernel/proc/scheduler.cc:248-281 | keeps bitmaps and counters exact |
| `Scheduler.Scheduler.Dispatch` | kernel/proc/scheduler.cc:556-558 | dispatch makes a runnable task run on a valid home and keeps bitmaps and counters exact |
| `Scheduler.Scheduler.SelectInitialCpu` | kernel/proc/scheduler.cc:313-367 | for any 32-bit loads, the CPU picked is allowed, it is online if any allowed CPU is and else exists, no such CPU has a smaller load, and it is the first of them in cyclic order from its start; the parent's CPU is returned only when no allowed CPU is online or exists |
| `Scheduler.PlacementFollowsHome` | kernel/proc/scheduler.cc:30-67 | a task whose home is allowed can be run by its home alone; otherwise by every allowed CPU |
| `Scheduler.Scheduler.constructor` | kernel/proc/scheduler.cc:120-139 | zero counters and empty bitmaps are exact for a table without schedulable tasks |
| `KernelHeap.KernelHeap.Malloc` | kernel/libs/liballoc_allocator.cc:32-263 | returns an aligned pointer into a block of its own in a gap or in a new chunk of pages that overlaps no other, and in range fails only when no gap fits and the buddy allocator has no aligned run of the least power of two of pages that would hold a chunk |
| `KernelHeap.KernelHeap.Free` | kernel/libs/liballoc_allocator.cc:266-344 | a live pointer frees its own block and no other, and with the last block of a chunk exactly that chunk's pages go back; a pointer to no live tag changes nothing |
| `KernelHeap.KernelHeap.MallocThenFree` | kernel/libs/liballoc_allocator.cc:32-344 | freeing what was just allocated gives the chunks, the live page blocks and the buddy tree back exactly |
| `KernelHeap.OfferFits` | kernel/libs/liballoc_allocator.cc:362-395 | the pages the buddy allocator hands out overlap no chunk and hold the new one |
| `KernelHeap.FieldsFit` | kernel/libs/liballoc_allocator.hh:17-40 | in chunks below 4 GiB every size, usage and requested size fits its 32-bit field |
| `Liballoc.Liballoc.Free` | kernel/libs/liballoc_allocator.cc:266-344 | a live pointer frees its own block and no other, and an emptied chunk goes back; a pointer to no live tag changes nothing |
| `Liballoc.Liballoc.Search` | kernel/libs/liballoc_allocator.cc:84-239 | finds a gap with room, or none of the chunks visited has one |
| `Liballoc.GapWithinFree` | kernel/libs/liballoc_allocator.cc:84-113 | no gap exceeds the free space told by `usage`, so skipping a chunk on its usage is safe |
| `Liballoc.PlacedOk` | kernel/libs/liballoc_allocator.cc:117-219 | placing a block at the start of a gap keeps the chunk's blocks ordered, disjoint and inside, and `usage` exact |
| `Liballoc.ClearedOk` | kernel/libs/liballoc_allocator.cc:308-315 | removing a block keeps them so |
| `Liballoc.LiveApart` | kernel/libs/liballoc_allocator.cc:32-344 | two live blocks share no byte, and neither do the callers' bytes in them |
| `Liballoc.FreeUndoesMalloc` | kernel/libs/liballoc_allocator.cc:32-344 | freeing the block just allocated gives the chunks back as they were |
| `Liballoc.PointerInside` | kernel/libs/liballoc_allocator.cc:397-412 | the pointer is a multiple of 16, and the requested bytes and the alignment record lie in the block |
| `Liballoc.AlignRoundTrip` | kernel/libs/liballoc_allocator.cc:397-424 | `_unalign` undoes `_align` |
| `Liballoc.NewChunkFits` | kernel/libs/liballoc_allocator.cc:362-395 | a new chunk has room for the block it was made for |
| `BootMemory.LargestUsableInterval` | kernel/mem/physical_memory_manager.cc:74-145 | the result is whole pages inside the region apart from every reserved range, and no such interval is longer |
| `BootMemory.ApartSharesNothing` | kernel/mem/physical_memory_manager.cc:74-145 | apart from a range that holds a byte means to share no byte with it |
| `BootMemory.SortRanges` | kernel/mem/physical_memory_manager.cc:91-107 | the exchange sort orders the ranges by start and keeps them all |
| `BootMemory.SweepOne` | kernel/mem/physical_memory_manager.cc:121-142 | passing one range keeps the best interval usable and as long as any that starts before the cursor |

## Left out

- LoongArch branches of page tables and TLB code: they repeat the RISC-V logic with other bits. `NUMCPU` is the RISC-V value 8; LoongArch has 12.
- Hardware: context switch, control registers, TLB and fence instructions, MMIO, IPIs; a TLB is a set of tagged entries per CPU.
- TLB flushes inside copy-on-write, fork and unmap, and the order of flush and frame release.
- AddressSpaces.AddressSpaces.VmUnmap: the TLB mode is not modelled, because translations are not part of these tables.
- AddressSpaces.AddressSpaces.VmUnmapSparse: the same.
- The caller's own roll-back list of `vm_copy`; it receives the same pages as the local one.
- A remap above user memory panics in `map_pages`; here it is a failed map.
- Checks of `walk` against leaves at upper levels and page-table bases out of range, which no table made by the walk has.
- The root page of an address space: it counts as owned outside the model, and `freewalk` of the root frees it last.
- Decoding of addresses in the page manager: pages are numbers here. `free_pages` ignores a null address and panics on a misaligned one.
- Faulting in pages from an overlay or an object, and cloning an overlay at fork; the clone is the condition `OverlaysCloned`.
- The hash that spreads page-cache keys over shards; `CacheShard` is one shard, `PageCache` the whole cache.
- Which pages of a readahead window are fetched together; a reader of `PageCache` may cover any number of pages.
- Buddy tree indices are unbounded here; the 32-bit node index overflows above 2^30 pages.
- Layout of the page manager's metadata at boot, `kmalloc`, and `free_page1`, whose page-sized part makes the same checks as `free_pages`.
- Clocks of futexes: a deadline may pass at any moment of a timed wait. Invalid timeouts, which the code refuses at once. An address whose page is there but that has no key counts as one without a page.
- Hashing of futex keys and private key identity: a key is a number and its bucket any function of it.
- `futex_wake_op` and robust lists.
- Whether a sleeping pipe reader is woken when data arrives, and atomicity of small writes: some exits return without waking, and the lock is dropped between chunks.
- `Pipe::write`, which moves one byte at a time and has no caller.
- Asynchronous pipe notification, poll and epoll readiness.
- Header checks of the devicetree and everything built on the walker.
- The priority search and scan order of the scheduler loop, and load averages.
- Bitmap words of the scheduler are sets of task numbers, so the bit tricks that walk a word are not modelled.
- Liballoc.Liballoc.Search: which of several gaps is taken depends on the chunk liballoc bets on; stated is that it is a gap with room.
- Liballoc totals (`_cach_size`, `_used_size`), `realloc` and `calloc`; lists and tags are sequences, so overwritten tags and the magic numbers' values are not modelled.
- `slab.cc`, POSIX timers, buffer cache and semaphores.
- Heaps of 4 GiB and more, whose 32-bit tag fields would be cut off; the kernel's heap has at most 256 MiB.
