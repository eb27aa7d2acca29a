# luojia-os-labs: page tables, task switching and executors

This project models three parts of the luojia teaching kernels and proves
properties of them with Dafny 4.11 (`dafny verify dfyconfig.toml`).

**Sv39 address spaces** (`03-virt-addr-kern/src/mm.rs`). `FramePool` and `AsidPool`
are the two stack-recycling allocators. `MapSolver` and `MapBlocks` are the split
of a page range into 1G, 2M and 4K entries and its quality. `Sv39` holds the index
arithmetic, the entry format, physical memory and the hardware walk of the RISC-V
Privileged Architecture, version 1.11, sections 4.3.2 and 4.4. `LostPages` says
which pages of a request are written, and where. `PageTree` studies the two memory
updates the code makes, `AddressSpace` and `PagedAddrSpace` are the address space as
functions and as an object, `MapTheorems` and `SpaceRuns` state what mapping does to
the hardware's translation. The main result is `SpaceRuns.RunRefinesFlatMap`: over
any run of requests the pointer-linked tree in memory translates exactly like a flat
map from page to page and flags. `LeafFollowing` has the requests below a leaf,
`SharedAllocator` two spaces over one allocator, and `MapExamples` concrete runs for
every way in which the code falls short.

**The cooperative kernel** (`02-multi-program-kern/kernel/src`). `Machine` is a small
register and memory machine; `Trap` and `TaskSwitch` are the assembly of trap.rs
and task.rs as instruction lists. `KernelRun` puts user code, traps, kernel code
and switches of up to 16 tasks over one memory and proves that every run gives
each task its own registers back; `Loader` establishes the invariant at boot.
`SelfSwitch` adds the switches of a task to itself. `Scheduler` is the round-robin task
manager: safety and bounded waiting; `KernelSchedule` puts it on the machine, lone yields
included (`KernelIsFaithful`).

**Executors.** `Executor` is the kernel/user coroutine of
`03-virt-addr-kern/src/executor.rs` and `CoroutineRun` the loop of resumes around it,
proved faithful to both sides over every run; `RunQueue` is the async run queue of
`02a-complex-ctx-kern/user/src`.

Where the code keeps state in place, a class carries it and each method is proved
to compute a function of the old state; the functions are then related to
reference definitions (the hardware walk, a flat map, a reference allocator, a
shadow of every task's registers).

## Choices

- Words are natural numbers; wrap-around is written out (`Words.Wrap`), shifts and
  masks are division and remainder by powers of two. The release profile is
  modelled: line 639 computes v - p and line 613 computes p - v, so with checked
  arithmetic only v = p would survive both.
- Physical memory is a map from frame number to 512 words, frames that are absent
  being zero. For the kernels' stacks it is a map from address to an 8-byte word;
  all modelled accesses are at aligned addresses.
- The free frames are taken to be all zero when a space is created, because child
  tables are linked without being cleared. Mapping preserves this; dropping a used
  space destroys it (`SpaceRuns.UsedSpaceLeavesDirtyFrames`), and then a linked
  table can translate pages nobody mapped (`PageTree.UnclearedTableIsSilentIff`).
- Virtual page numbers have up to 52 bits in the code, 27 of which the table walk
  looks at (`Sv39.WalkLowBits`). The theorems take requests of any page numbers and
  speak of the walk on the low 27 bits; the hardware's separate check that an address
  is canonical is not part of the model.
- The hypotheses of the run theorems are met by the states the code starts from:
  `AddressSpace.CreateIsGood` for address spaces, `Loader.BootStartsTaskZero` for
  the kernel machine, `CoroutineRun.NewUserStarts` for the coroutine,
  `Scheduler.InitialInv` for the task manager.
- Frame numbers of the pool fit the 44 bits of an entry, as the target's memory does.
- User code of a task is assumed not to write kernel stacks, context pointers or, for
  the coroutine, the context record and the kernel frame. Kernel code of a task stays
  on its own stack below the trap frame and returns with sp restored, and in the runs
  of `SelfSwitch` it leaves the running task's context pointer to `switch_task`; between two
  resumes of the coroutine kernel code may do anything outside the context record,
  and its edits of the record are events of the run.

## Where the code falls short of its text

- `deallocate_frame` reports pages that have "not been allocated", but accepts any
  page outside the interval (`FramePool.DeallocateAcceptsLive`); `deallocate_asid`
  accepts identifiers never issued (`AsidPool.DeallocateLive`).
- `allocate_map` returns Ok although pages are lost (`LostPages.WholeRangeIsKeptIff`
  has the condition): a first range of 4K or 2M entries is cut at the end of its
  first table (`MapExamples.LastPageIsDropped`); whole gigabytes that reach the end of
  a 512G table are not written at all (`MapExamples.LastGigabyteIsLost`); gigabytes
  whose page number has one of bits 27 to 43 set, among them the upper canonical half,
  go to other physical pages (`MapExamples.UpperGigabyteIsMisplaced`). A request for
  more than 2^27 pages is never mapped as asked (`SpaceRuns.OkMapsWholeRangeIff`).
- The comment at line 362 of mm.rs promises that a new page table has all entries
  invalid; only the root table is initialised. A link is harmless exactly when the
  hardware gets nowhere from the frame's old words (`PageTree.UnclearedTableIsSilentIff`);
  in the second of two lives it need not be (`MapExamples.SecondLifeTranslatesUnmappedPage`).
- `alloc_get_table` looks at bit V alone and follows leaves. Ok then means success
  exactly when no leaf was in the way or the leaf translated the pages that way already
  (`LeafFollowing.OkMapsRangeIff`, `MapExamples.SecondRequestIsLost`). Existing
  translations are never changed (`LeafFollowing.TranslationsSurvive`), but a frame may
  be taken and linked into mapped data (`MapExamples.StrayFrameIsTaken`); for data apart
  from the space's own tables `LeafFollowing.GoodSurvivesIff` says when the page-table
  tree stays in order.
- A task that yields returns to the same ecall (`KernelRun.YieldReturnsToEcall`). A task
  that yields alone is switched to itself and comes back as it left exactly when its
  stack pointer equals that of its previous switch-out (`SelfSwitch.ActsAreFaithful`);
  the first time after boot it does not (`SelfSwitch.FirstLoneYieldLosesItsPlace`).

## Model

| member | source | states |
|---|---|---|
| `FramePool.AllocateKeepsPartition` | 03-virt-addr-kern/src/mm.rs:101-113 | a page handed out was free, lies in the interval and was not live; live, recycled and untouched pages keep partitioning the interval; allocation fails if and only if every page is live |
| `FramePool.BumpRemovesOnePage` | 03-virt-addr-kern/src/mm.rs:65-76 | advancing `current` removes exactly one page from the circular rest of the interval, also where the page number wraps |
| `FramePool.DeallocateAcceptsLive` | 03-virt-addr-kern/src/mm.rs:114-121 | the validity check accepts a page if and only if it is live or outside the managed interval; freeing a live page keeps the partition, accepting any other page breaks it for good |
| `FramePool.ForeignPageIsAccepted` | 03-virt-addr-kern/src/mm.rs:116-120 | concrete case where the check accepts, and then hands out, a page the allocator never managed |
| `FramePool.RunRefinesReference` | 03-virt-addr-kern/src/mm.rs:97-122 | over any run of allocations and frees of pages of the interval every answer is one a reference allocator that knows only the live set may give |
| `FramePool.NewPoolInv` | 03-virt-addr-kern/src/mm.rs:98-100 | a new allocator satisfies the partition with nothing live |
| `FramePool.FreedIsNextGranted` | 03-virt-addr-kern/src/mm.rs:101-121 | stack order: a page taken back is the next one handed out, and handing it out undoes the taking back, for every pool |
| `FramePool.UntouchedPagesCountUp` | 03-virt-addr-kern/src/mm.rs:101-113 | with nothing recycled, the pages handed out are current, current + 1, ... around the circle of page numbers |
| `FramePool.StackFrameAllocator.constructor` | 03-virt-addr-kern/src/mm.rs:98-100 | nothing is recycled and the bump pointer is at the start |
| `FramePool.StackFrameAllocator.AllocateFrame` | 03-virt-addr-kern/src/mm.rs:101-113 | the object computes `Allocate`: last page taken back first (`FreedIsNextGranted`), else the page at `current` (`UntouchedPagesCountUp`) |
| `FramePool.StackFrameAllocator.DeallocateFrame` | 03-virt-addr-kern/src/mm.rs:114-121 | the object computes `Deallocate`; a panic leaves it unchanged |
| `AsidPool.AllocateKeepsPartition` | 03-virt-addr-kern/src/mm.rs:218-236 | identifiers 0..max stay partitioned; allocation fails if and only if all max+1 are live; the error after the failed increment is unreachable |
| `AsidPool.DeallocateLive` | 03-virt-addr-kern/src/mm.rs:238-243 | the check accepts exactly the live and the never-issued identifiers, `max` apart; an accepted identifier keeps the partition if and only if it was live |
| `AsidPool.UnissuedAsidIsAccepted` | 03-virt-addr-kern/src/mm.rs:238-243 | concrete case where a never-issued identifier is accepted and then handed out twice |
| `AsidPool.RunRefinesReference` | 03-virt-addr-kern/src/mm.rs:213-244 | over any run that frees only live identifiers the answers are those of a reference allocator, except that `max` is never taken back |
| `AsidPool.NewPoolInv` | 03-virt-addr-kern/src/mm.rs:214-216 | a new allocator satisfies the partition with nothing live |
| `AsidPool.FreedIsNextGranted` | 03-virt-addr-kern/src/mm.rs:218-243 | stack order: an identifier taken back is the next one handed out, and handing it out undoes the taking back, for every pool |
| `AsidPool.IdentifiersCountUp` | 03-virt-addr-kern/src/mm.rs:218-236 | with nothing recycled the identifiers handed out are current, current + 1, ... up to max, and then none |
| `AsidPool.StackAsidAllocator.constructor` | 03-virt-addr-kern/src/mm.rs:214-216 | the object is a new pool |
| `AsidPool.StackAsidAllocator.AllocateAsid` | 03-virt-addr-kern/src/mm.rs:218-236 | the object computes `Allocate`: last identifier taken back first (`FreedIsNextGranted`), else the next in order (`IdentifiersCountUp`) |
| `AsidPool.StackAsidAllocator.DeallocateAsid` | 03-virt-addr-kern/src/mm.rs:238-243 | the object computes `Deallocate`; a panic leaves it unchanged |
| `Sv39.EntryRoundTrip` | 03-virt-addr-kern/src/mm.rs:517-530 | reading back an entry returns its flags, with no other bit below the page number, and its page number modulo 2^44, the page number itself if and only if it has at most 44 bits |
| `Sv39.MappingEntryIsLeaf` | 03-virt-addr-kern/src/mm.rs:475-478 | a mapping entry has V set and the other seven flags as given; it is a usable leaf for the hardware if and only if the flags have R or X and W only with R |
| `Sv39.ChildEntryIsPointer` | 03-virt-addr-kern/src/mm.rs:471-474 | a child entry is a valid non-leaf that points to the child, with V and no other bit set below the page number |
| `Sv39.IndexRangeIsCutAtTableEnd` | 03-virt-addr-kern/src/mm.rs:436-447 | at levels 0 and 1 the index range of an aligned page range covers exactly its part up to the end of the table of its first page, wherever the range lies |
| `Sv39.IndexRange1G` | 03-virt-addr-kern/src/mm.rs:436-447 | at level 2 a range inside one 512G table gets the entries of exactly its own pages |
| `Sv39.IndexRangeIsEmpty1G` | 03-virt-addr-kern/src/mm.rs:436-447 | at level 2 a range that reaches or passes the end of a 512G table gets no entry, because the end index is masked and not cut |
| `Sv39.LevelIndexInvertsIndex` | 03-virt-addr-kern/src/mm.rs:433-455 | for every page number, `vpn_level_index` gives the first page of an entry, and the low 27 bits of that page lead back to the same table and entry |
| `Sv39.KeptPageIsInRange` | 03-virt-addr-kern/src/mm.rs:436-447 | at levels 0 and 1 every page before the cut uses an entry of that table inside the index range |
| `MapSolver.Solve` | 03-virt-addr-kern/src/mm.rs:635-665 | the two nested loops compute `Pieces`; no rounding wraps for 52-bit page numbers |
| `MapSolver.SolveFrom` | 03-virt-addr-kern/src/mm.rs:642-660 | the inner loop, entered with the chosen level, pushes exactly the ranges of `Pieces` |
| `MapSolver.SplitIsExactTiling` | 03-virt-addr-kern/src/mm.rs:635-660 | for all v, p, n the ranges are disjoint, their union is [v, v+n), both ends are aligned to the level, and so is the wrapped physical start |
| `MapSolver.BelowTiles` | 03-virt-addr-kern/src/mm.rs:643-660 | the lower levels tile exactly what the level above leaves over, with ranges that each fit one table |
| `MapSolver.ShiftKeepsAlignment` | 03-virt-addr-kern/src/mm.rs:613 | the wrapped physical start of an aligned page is aligned if and only if v and p agree modulo the block size |
| `MapSolver.ShiftInsideBlock` | 03-virt-addr-kern/src/mm.rs:613 | inside a block physical pages run in step with virtual ones, through the wrap and the 44-bit field |
| `MapSolver.ShiftIsDisplacement` | 03-virt-addr-kern/src/mm.rs:613 | the wrapped computation gives p + (x - v) modulo 2^44, exactly p + (x - v) where that fits |
| `MapBlocks.SplitIsLegalCover` | 03-virt-addr-kern/src/mm.rs:635-660 | the leaf entries of the split form a legal cover of the range without overlap |
| `MapBlocks.PieceIsMaximal` | 03-virt-addr-kern/src/mm.rs:637-660 | no legal block of a higher level touches a range of the split |
| `MapBlocks.SplitIsOptimal` | 03-virt-addr-kern/src/mm.rs:635-665 | no cover of the range by virtually and physically aligned blocks of 1, 512 or 512*512 pages uses fewer entries |
| `LostPages.CodeVpnLeadsBack` | 03-virt-addr-kern/src/mm.rs:448-455 | the page number the code computes for an entry has the low bits of the pages the entry translates |
| `LostPages.RangeIsKeptIff` | 03-virt-addr-kern/src/mm.rs:433-455 | a range of any split is written whole and as itself if and only if it does not pass the end of its table and, at level 2, does not reach the end of a 512G table and starts at a page with bits 27 to 43 zero |
| `LostPages.OnlyFirstRangeIsLossy` | 03-virt-addr-kern/src/mm.rs:635-660 | only the first range of a split can lose pages |
| `LostPages.WholeRangeIsKeptIff` | 03-virt-addr-kern/src/mm.rs:606-620 | for all v, p, n: the entries that `allocate_map` fills translate the whole of [v, v+n), each page as itself, if and only if the first range is not lossy, a condition on v, p and n alone |
| `LostPages.RequestDoesNotCollide` | 03-virt-addr-kern/src/mm.rs:606-620 | a request of at most 2^27 pages needs no entry twice, and only entries of its own pages |
| `MapExamples.LastPageIsDropped` | 03-virt-addr-kern/src/mm.rs:436-447 | v = 511, n = 2 in a new space: Ok is returned, page 511 is mapped, page 512 is not |
| `MapExamples.GigabytesAtTableEndAreLost` | 03-virt-addr-kern/src/mm.rs:436-447 | in every space, whole gigabytes that reach the end of a 512G table are answered with Ok and nothing at all is written |
| `MapExamples.LastGigabyteIsLost` | 03-virt-addr-kern/src/mm.rs:436-447 | v = 2^27 - 2^18, n = 2^18, in every space and for every aligned p |
| `MapExamples.UpperGigabyteIsMisplaced` | 03-virt-addr-kern/src/mm.rs:448-455 | v = 2^52 - 2^26, n = 2^18: Ok is returned and the page is mapped 2^27 pages behind the one asked for |
| `PageTree.SetLeaf` | 03-virt-addr-kern/src/mm.rs:612-618 | writing an aligned leaf into a free entry translates exactly the pages of its block and changes no other translation |
| `PageTree.SetChild` | 03-virt-addr-kern/src/mm.rs:592-598 | linking an all-zero frame adds one table to the tree and changes no translation |
| `PageTree.UnclearedTableIsSilentIff` | 03-virt-addr-kern/src/mm.rs:592-598 | linking a table of either level without clearing it changes no translation if and only if the hardware gets nowhere from any of its old words |
| `PageTree.LeafAboveIff` | 03-virt-addr-kern/src/mm.rs:590-591 | a leaf lies above a table on the path of a page exactly when the page is translated but that table does not exist |
| `MapExamples.SecondLifeTranslatesUnmappedPage` | 03-virt-addr-kern/src/mm.rs:592-598 | create, map, drop, create, map: the second space gets an old table as level-1 table, and the hardware translates a page nobody mapped |
| `PageTree.InvIsTree` | 03-virt-addr-kern/src/mm.rs:549-605 | pointers from the root reach exactly the owned tables, each by one path: depth at most three, no sharing, no cycles |
| `AddressSpace.CreateIsGood` | 03-virt-addr-kern/src/mm.rs:558-565 | a new space owns one fresh frame, translates nothing and satisfies the invariant; it fails only with no free frame |
| `AddressSpace.NewSpaceIsEmpty` | 03-virt-addr-kern/src/mm.rs:558-580 | whatever memory held, every word of a new root table is 0, every walk faults, no other frame is written, and the root is the frame the allocator granted |
| `AddressSpace.LinkTableIsSilent` | 03-virt-addr-kern/src/mm.rs:593-597 | a frame taken from the pool and linked keeps invariant and translations |
| `AddressSpace.GetTableFinds` | 03-virt-addr-kern/src/mm.rs:584-605 | with no leaf in the way the fetch finds or builds exactly the table of the page; success or failure, no translation changes; it fails only with the pool exhausted |
| `AddressSpace.GoodSpaceIsTree` | 03-virt-addr-kern/src/mm.rs:549-605 | the owned frames are exactly the tables of the tree, pairwise distinct and live in the allocator |
| `MapTheorems.WriteEntriesMaps` | 03-virt-addr-kern/src/mm.rs:612-619 | the entries of a range are written, each block in step with the page number the code computes, up to the first one in use, which is the panic; all of them if and only if none is in use |
| `MapTheorems.MapPieceMaps` | 03-virt-addr-kern/src/mm.rs:607-620 | one range, no leaf in the way: all its entries written and nothing else changed, or nothing changed and the pool exhausted, or its first entries written up to one in use |
| `MapTheorems.EntryInUseIff` | 03-virt-addr-kern/src/mm.rs:458-466 | an entry is in use if and only if its pages are translated or it points to a table |
| `MapTheorems.WriteEntryMaps` | 03-virt-addr-kern/src/mm.rs:612-618 | one entry written by `allocate_map` maps its whole block, in step with the page number the code computes, and nothing else |
| `MapTheorems.MapPiecesMaps` | 03-virt-addr-kern/src/mm.rs:606-622 | the whole loop, as long as no range finds a leaf in its way: the tree is kept, exactly the completed ranges are mapped, and on a panic the first entries of the range that stopped it |
| `MapTheorems.OkWritesUntranslated` | 03-virt-addr-kern/src/mm.rs:606-622 | after Ok no entry was needed twice and every page written was untranslated before |
| `MapTheorems.AnswerOfKept` | 03-virt-addr-kern/src/mm.rs:613 | whatever the order of the ranges, a page that one of them keeps ends up at p + (x - v) |
| `SpaceRuns.AllocateMapIsCorrect` | 03-virt-addr-kern/src/mm.rs:606-622 | as long as no range finds a leaf in its way, whatever is mapped already and however long the request, `allocate_map` keeps the tree, maps exactly the completed ranges, leaves every other translation alone and fails only with the pool exhausted; a panic leaves the first entries of one more range |
| `SpaceRuns.UnblockedIsMappable` | 03-virt-addr-kern/src/mm.rs:606-622 | a request of at most 2^27 pages with no leaf in the way at first finds none later, and panics only if one of the entries it needs is in use at first |
| `SpaceRuns.OkMapsKeptPages` | 03-virt-addr-kern/src/mm.rs:606-622 | as long as no range finds a leaf in its way, Ok means that every kept page x goes to p + (x - v) with V set and the other seven flags as given, for requests of any length; pages outside the request are as before |
| `SpaceRuns.OkMapsWholeRangeIff` | 03-virt-addr-kern/src/mm.rs:606-622 | on an untranslated range of any 64-bit page numbers, after Ok the hardware walk sends v+k to p+k with V set and the other seven flags as given, for all k, if and only if n is at most 2^27 and the first range is not lossy; all other pages are as before |
| `SpaceRuns.StepRefinesFlatMap` | 03-virt-addr-kern/src/mm.rs:606-622 | a request that finds no leaf in its way and does not panic keeps memory and flat map in step, whether it succeeds or not |
| `SpaceRuns.FreshIsServed` | 03-virt-addr-kern/src/mm.rs:606-622 | a request with proper leaf flags for at most 2^27 pages, none of them in the flat map, is such a request, unless a table hangs below an entry it needs |
| `SpaceRuns.RunRefinesFlatMap` | 03-virt-addr-kern/src/mm.rs:584-622 | over any run of such requests, failed and overlapping ones included, the three-level tree in memory refines a flat page map |
| `SpaceRuns.FlatMapIsDisplacement` | 03-virt-addr-kern/src/mm.rs:606-622 | the flat map's update is the textbook one, page v+k to page p+k with V set and the other seven flags as given and nothing else, for every request that loses no pages |
| `SpaceRuns.FreeAllSucceeds` | 03-virt-addr-kern/src/mm.rs:328-333 | freeing distinct live frames never panics and removes exactly them from the live set |
| `SpaceRuns.DropReturnsFrames` | 03-virt-addr-kern/src/mm.rs:328-333 | dropping a space never panics and gives back exactly its frames, the root frame first |
| `SpaceRuns.LifeConservesFrames` | 03-virt-addr-kern/src/mm.rs:303-333 | over any memory, from creation through any requests at all, panics included, to the drop: the space owns distinct live frames that nobody else owns, the drop does not panic, and the allocator ends with the live frames it had |
| `SpaceRuns.LifeTakesFramesInOrder` | 03-virt-addr-kern/src/mm.rs:558-605 | over any memory and any requests the root and then the frame list are the grants of the allocator in their order, and no grant is kept elsewhere |
| `SpaceRuns.LifeKeepsTree` | 03-virt-addr-kern/src/mm.rs:549-605 | over zero free frames and through requests that find no leaf in their way, the owned frames are at all times the tables of the tree, which refines a flat page map |
| `SpaceRuns.DropLeavesZeroFramesIff` | 03-virt-addr-kern/src/mm.rs:328-333 | after a drop the free frames are all zero if and only if the dropped tables were |
| `SpaceRuns.UsedSpaceLeavesDirtyFrames` | 03-virt-addr-kern/src/mm.rs:593-597 | after dropping a space that translated a page, the hypothesis that free frames are zero fails |
| `LeafFollowing.RequestBelowLeafHasNoEffect` | 03-virt-addr-kern/src/mm.rs:584-620 | a range of 2M or 4K entries below a leaf of a higher level changes no translation at all and adds none, provided the data it is led into are not the space's own tables; its pages were all translated before |
| `LeafFollowing.TranslationsSurvive` | 03-virt-addr-kern/src/mm.rs:606-622 | no request ever changes an existing translation: any space, any memory, any request, however it ends |
| `LeafFollowing.OkMapsRangeIff` | 03-virt-addr-kern/src/mm.rs:584-620 | a range answered with Ok is mapped as computed if and only if no leaf was in the way or the leaf already translated its pages that way |
| `LeafFollowing.GoodSurvivesIff` | 03-virt-addr-kern/src/mm.rs:584-620 | a range below a leaf, led into data apart from the space's own tables, leaves the owned frames a tree over zero free frames if and only if it takes no frame and enters no free one |
| `MapExamples.StrayFrameIsTaken` | 03-virt-addr-kern/src/mm.rs:590-597 | a page requested below a 1G leaf: Ok, a frame is taken and linked into the mapped data, and the owned frames are no longer the tables of a tree |
| `SharedAllocator.CallWritesOwnFrames` | 03-virt-addr-kern/src/mm.rs:584-622 | a call writes no frame that the space does not own afterwards |
| `SharedAllocator.CallKeepsPair` | 03-virt-addr-kern/src/mm.rs:584-622 | of two spaces over one allocator and memory, a call on one keeps both in order and changes no translation of the other |
| `SharedAllocator.InterleavedRunsRefine` | 03-virt-addr-kern/src/mm.rs:549-622 | over any interleaving of requests to two spaces that share the allocator, each refines a flat page map of its own |
| `SharedAllocator.SecondSpaceMakesPair` | 03-virt-addr-kern/src/mm.rs:558-565 | a second space created beside a good one makes such a pair |
| `MapExamples.SecondRequestIsLost` | 03-virt-addr-kern/src/mm.rs:590-591 | a 1G request, then a 2M request inside it: both Ok, page 0 stays where the first sent it |
| `PagedAddrSpace.PagedAddrSpace.TryNewIn` | 03-virt-addr-kern/src/mm.rs:558-565 | the object and memory are those of `Create`: whatever memory held, the root's 512 words are 0 and every other frame is as before |
| `PagedAddrSpace.PagedAddrSpace.AllocGetTable` | 03-virt-addr-kern/src/mm.rs:584-605 | the loop over levels computes `GetTable` on memory, pool and frame list |
| `PagedAddrSpace.PagedAddrSpace.AllocateMap` | 03-virt-addr-kern/src/mm.rs:606-622 | the loops compute `AllocateMap`, with the same outcome |
| `PagedAddrSpace.PagedAddrSpace.WriteRange` | 03-virt-addr-kern/src/mm.rs:612-619 | the inner loop computes `WriteEntries` |
| `PagedAddrSpace.PagedAddrSpace.Drop` | 03-virt-addr-kern/src/mm.rs:328-333 | the frees happen in the order root frame, then `frames` |
| `Machine.StoresSave` | 02-multi-program-kern/kernel/src/trap.rs:161-190 | a run of stores to distinct words saves every listed register and writes nothing else |
| `Machine.LoadsRestore` | 02-multi-program-kern/kernel/src/trap.rs:117-146 | a run of loads fills every listed register from its own word and changes no other |
| `Trap.EntrySavesUser` | 02-multi-program-kern/kernel/src/trap.rs:156-198 | entry leaves a frame with all user registers, status and pc directly below the stack top held in sscratch, and writes nothing else |
| `Trap.ExitRestoresUser` | 02-multi-program-kern/kernel/src/trap.rs:108-152 | exit gives user code exactly the registers of the frame at sp and leaves the kernel stack top in sscratch |
| `Trap.AnswerEditsFrame` | 02-multi-program-kern/kernel/src/trap.rs:70-74 | the Return arm changes a0, a1 and pc+4 in the frame and nothing else |
| `Trap.SyscallRoundTrip` | 02-multi-program-kern/kernel/src/trap.rs:154-242 | entry, handler, exit: user code goes on at the pc after the ecall with the two answer words in a0 and a1 and every other register, status included, as it was; sscratch is the stack top again |
| `TaskSwitch.SwitchEffect` | 02-multi-program-kern/kernel/src/task.rs:152-189 | the switch pushes the running context, publishes its address at a0 and continues with the 13 words at a1 as they are after the push |
| `TaskSwitch.SwitchResumes` | 02-multi-program-kern/kernel/src/task.rs:152-189 | a context stored apart from the pushed words is resumed unchanged |
| `TaskSwitch.SelfSwitchResumesIff` | 02-multi-program-kern/kernel/src/task.rs:79-86 | a task switched to itself comes back as it left if and only if the pointer read before the switch is the address of the context being pushed |
| `TaskSwitch.SameContextIff` | 02-multi-program-kern/kernel/src/task.rs:131-149 | two register files have the same context if and only if ra, sp and s0..s11 agree |
| `TaskSwitch.ContextWords` | 02-multi-program-kern/kernel/src/task.rs:131-189 | a saved context is ra, s0, s1, s2..s11 in this order, to be resumed with sp above them |
| `KernelRun.TrapInStep` | 02-multi-program-kern/kernel/src/trap.rs:156-198 | a trap keeps the invariant: the current task's frame holds its user registers, all other tasks stay parked |
| `KernelRun.TrapOutStep` | 02-multi-program-kern/kernel/src/trap.rs:108-152 | back in user code the current task has its own registers and sscratch is its own kernel stack top |
| `KernelRun.SwitchStep` | 02-multi-program-kern/kernel/src/task.rs:73-93 | a switch between different tasks parks one and resumes the other with the context it left with |
| `KernelRun.AnswerStep` | 02-multi-program-kern/kernel/src/trap.rs:70-74 | the Return arm keeps the invariant, with the answer entered in what the task is entitled to |
| `KernelRun.StepIsFaithful` | 02-multi-program-kern/kernel/src/trap.rs:64-104 | every step of user code, trap, kernel code, answer, return and switch keeps the invariant and gives each task its own registers |
| `KernelRun.RunIsFaithful` | 02-multi-program-kern/kernel/src/task.rs:73-93 | over any run of traps, answers and switches between different tasks each task finds its own user registers and callee-saved context again |
| `KernelRun.RunKeepsInv` | 02-multi-program-kern/kernel/src/task.rs:73-93 | the invariant holds at the end of every legal run |
| `KernelRun.ParkedTaskStays` | 02-multi-program-kern/kernel/src/task.rs:73-93 | over any legal run that does not switch to it, a task stays parked in memory with the same context and the same user registers |
| `KernelRun.YieldReturnsToEcall` | 02-multi-program-kern/kernel/src/trap.rs:85-88 | a task that trapped and was not answered gets back to user code, after any legal run of the others, with the registers and pc of the trap: it is at the same ecall again |
| `Loader.InitAppParks` | 02-multi-program-kern/kernel/src/loader.rs:39-47 | `push_context` leaves the task parked: the control block points to 13 words, `restore_trap` and twelve zeros, below 33 words that are zero but for user stack, status and entry; nothing outside its stack and pointer is written |
| `Loader.InitAppsPark` | 02-multi-program-kern/kernel/src/task.rs:105-115 | the start-up loop parks every task with its own initial registers |
| `Loader.BootStartsTaskZero` | 02-multi-program-kern/kernel/src/task.rs:39-49 | `run_first_task` resumes task 0 from its initial context (`FirstEntryOfTaskZero` has its words) and establishes the invariant of all runs |
| `Loader.BootedRunIsFaithful` | 02-multi-program-kern/kernel/src/task.rs:39-93 | from boot on, over every legal run, every task finds its own registers |
| `Loader.FirstDispatch` | 02-multi-program-kern/kernel/src/task.rs:73-93 | from boot on, after any legal run without it, the first switch to task i returns to `restore_trap` with s0..s11 zero and sp at its trap frame, and the exit enters user code at 0x80400000 + i * 0x20000 with sp at the end of the i-th 8192 bytes of user stack, all other registers zero and sscratch at its kernel stack top |
| `Loader.FirstEntryOfTaskZero` | 02-multi-program-kern/kernel/src/loader.rs:89-93 | the same for task 0, directly after `run_first_task`: ra is `restore_trap`, and user code is entered at 0x80400000 |
| `Loader.FreshTasksApart` | 02-multi-program-kern/kernel/src/loader.rs:57-64 | programs, user stacks and kernel stacks of different tasks are disjoint; neighbours are 0x20000 and 8192 bytes apart, the first program is at 0x80400000 |
| `SelfSwitch.ActIsFaithful` | 02-multi-program-kern/kernel/src/task.rs:73-93 | every step of the kernel machine, a switch of a task to itself included, keeps the invariant that the context pointer of the running task is where its last switch-out left it |
| `SelfSwitch.ActsAreFaithful` | 02-multi-program-kern/kernel/src/task.rs:73-93 | over any run with self-switches every task finds its user registers, and a task switched to itself comes back as it left if and only if its stack pointer equals that of its previous switch-out |
| `SelfSwitch.BootedActsAreFaithful` | 02-multi-program-kern/kernel/src/task.rs:39-93 | so from boot on, where the loader's context counts as a switch-out with the stack pointer at the trap frame |
| `SelfSwitch.FirstLoneYieldLosesItsPlace` | 02-multi-program-kern/kernel/src/task.rs:73-93 | the first yield of a lone task after boot continues with the stack pointer at the trap frame and not where it left |
| `SelfSwitch.LaterLoneYieldReturnsIff` | 02-multi-program-kern/kernel/src/task.rs:73-93 | the next one comes back as it left if and only if it is at the same stack pointer as the one before |
| `Loader.PushContextInPlace` | 02-multi-program-kern/kernel/src/loader.rs:39-47 | the trap context lies in the 33 words below the stack top, the task context in the 13 words below it, at the returned address; nothing else is written |
| `Loader.InitAppsInPlace` | 02-multi-program-kern/kernel/src/task.rs:112-115 | the loop computes `InitApps` |
| `Scheduler.FindNextIsNearest` | 02-multi-program-kern/kernel/src/task.rs:63-71 | the search returns the ready task nearest in cyclic order, and nothing only if none is ready |
| `Scheduler.StepIsSafe` | 02-multi-program-kern/kernel/src/task.rs:73-103 | exactly the current task runs afterwards, slots past num_app stay uninitialised, Finished is permanent, and shutdown happens exactly on the exit that completes num_app exits |
| `Scheduler.RunIsSafe` | 02-multi-program-kern/kernel/src/task.rs:95-103 | over any run the machine is up exactly while fewer than num_app exits have happened, whatever the yields |
| `Scheduler.InitialInv` | 02-multi-program-kern/kernel/src/task.rs:105-124 | the initial state satisfies the invariant with no exits counted |
| `Scheduler.StepMovesCloser` | 02-multi-program-kern/kernel/src/task.rs:73-93 | every call either dispatches a waiting ready task or strictly shortens its cyclic distance |
| `Scheduler.BoundedWaiting` | 02-multi-program-kern/kernel/src/task.rs:63-93 | a ready task is dispatched within as many calls as its cyclic distance, whatever mix of yields and exits occurs |
| `Scheduler.SelfSwitchIff` | 02-multi-program-kern/kernel/src/task.rs:63-93 | a task is switched to itself if and only if it yields while no other task is ready |
| `Scheduler.SwitchCallIsLegal` | 02-multi-program-kern/kernel/src/task.rs:73-93 | while another task is ready, the scheduler's switch is one of those the kernel machine allows |
| `Scheduler.SwitchCallEffect` | 02-multi-program-kern/kernel/src/task.rs:73-93 | what `run_next_task` does to the machine for any next task, the caller included: the context is pushed and its address stored in the caller's control block, and sp, ra and s0..s11 are those at the address the next task's control block held before |
| `KernelSchedule.CallStep` | 02-multi-program-kern/kernel/src/task.rs:73-103 | a call on scheduler and machine together while another task is ready: the caller is parked and another ready task continues where it was switched out |
| `KernelSchedule.SelfCallStep` | 02-multi-program-kern/kernel/src/task.rs:73-98 | a task dispatched to itself has yielded, and its call is a self-switch of the kernel machine: sp afterwards is the old pointer + 104, the pointer is the old sp - 104, and it comes back as it left if and only if sp is that of its previous switch-out |
| `KernelSchedule.EventIsFaithful` | 02-multi-program-kern/kernel/src/task.rs:73-103 | every step of the machine and every call, to another task or to itself, keeps the invariant and gives each task its registers |
| `KernelSchedule.KernelIsFaithful` | 02-multi-program-kern/kernel/src/task.rs:63-103 | over every run of scheduler and machine up to the shutdown, lone yields included, every task finds its user registers and the context of its previous switch-out |
| `KernelSchedule.DispatchedWithinDistance` | 02-multi-program-kern/kernel/src/task.rs:63-103 | a waiting task is dispatched within its cyclic distance of calls, on the machine: exactly where it was switched out, with the trap frame it left |
| `KernelSchedule.YieldComesBack` | 02-multi-program-kern/kernel/src/trap.rs:85-88 | a task that traps and yields while another one is ready is back in its handler within its cyclic distance of calls, where it called, with the registers of the trap in its frame |
| `KernelSchedule.BackAtEcall` | 02-multi-program-kern/kernel/src/trap.rs:85-88 | from there it returns to user code with these registers, at the same ecall |
| `KernelSchedule.BootedKernel` | 02-multi-program-kern/kernel/src/task.rs:39-49 | after boot the invariant of these runs holds |
| `Scheduler.TaskManager.constructor` | 02-multi-program-kern/kernel/src/task.rs:105-124 | the first num_app slots are ready, the others uninitialised, task 0 is current |
| `Scheduler.TaskManager.FindNextTask` | 02-multi-program-kern/kernel/src/task.rs:63-71 | the loop computes `FindNext` |
| `Scheduler.TaskManager.RunFirstTask` | 02-multi-program-kern/kernel/src/task.rs:39-49 | statuses and machine after the first switch, from the dummy word to the context of task 0 |
| `Scheduler.TaskManager.RunNextTask` | 02-multi-program-kern/kernel/src/task.rs:73-93 | statuses and machine after the switch, made also when the task is dispatched to itself; the next pointer is read before the switch stores the current one; on shutdown nothing is switched (`SwitchCallEffect` says what the switch does) |
| `Scheduler.TaskManager.SuspendCurrentAndRunNext` | 02-multi-program-kern/kernel/src/task.rs:95-98 | the object computes the yield step and makes its switch |
| `Scheduler.TaskManager.ExitCurrentAndRunNext` | 02-multi-program-kern/kernel/src/task.rs:100-103 | the object computes the exit step and makes its switch |
| `Executor.FrameCoversKept` | 03-virt-addr-kern/src/executor.rs:123-148 | the 15 words of the kernel frame together with sp are exactly the registers a called function keeps: ra, sp, gp, tp, s0..s11 |
| `Executor.EnterRestoresUser` | 03-virt-addr-kern/src/executor.rs:123-196 | entering gives user code exactly the registers of the context, with sscratch at the context, the kernel's registers on its stack and that frame's address in the context |
| `Executor.TrapSavesUser` | 03-virt-addr-kern/src/executor.rs:202-247 | the trap vector saves exactly the user registers into the context and writes nothing else |
| `Executor.ResumeRoundTrip` | 03-virt-addr-kern/src/executor.rs:115-274 | one `resume`: the kernel's sp, ra, gp, tp, s0..s11 come back and the context holds the user's registers at the trap |
| `CoroutineRun.StepIsFaithful` | 03-virt-addr-kern/src/executor.rs:115-274 | every step of resume, user code, trap, kernel code and edits of the context keeps the invariant, and both sides find their own registers |
| `CoroutineRun.RunIsFaithful` | 03-virt-addr-kern/src/executor.rs:50-65 | over any number of resumes, with kernel code free to change every register and all memory but the context, user code starts with the registers of its last trap as edited since, and the kernel gets sp, ra, gp, tp, s0..s11 of its last resume back |
| `CoroutineRun.AnsweredCallReturns` | 03-virt-addr-kern/src/main.rs:83-87 | a system call answered with `Return` comes back, on the machine, at the pc after the ecall with the answer in a0 and a1 and every other register as it was at the trap, whatever kernel code runs around the answer |
| `CoroutineRun.NewUserStarts` | 03-virt-addr-kern/src/executor.rs:26-31 | a new runtime satisfies the invariant, and its first resume, whatever kernel code runs before, enters the first program with its own stack and all other registers zero |
| `Executor.PreparedAppStarts` | 03-virt-addr-kern/src/executor.rs:33-48 | `prepare_next_app` changes sp, status and pc of the context, poisons its kernel-stack word and keeps the other registers |
| `Executor.Runtime.Reset` | 03-virt-addr-kern/src/executor.rs:33-38 | the context gets the new user stack, status and the value 0x233333666666 as kernel stack, and keeps every other register and the pc; nothing outside it is written |
| `Executor.Runtime.PrepareNext` | 03-virt-addr-kern/src/executor.rs:45-48 | the object computes `PrepareNextApp` |
| `Executor.Runtime.DoResume` | 03-virt-addr-kern/src/executor.rs:115-196 | user code starts with exactly the registers of the context; the caller's registers wait in the frame whose address the context keeps |
| `Executor.Runtime.ReturnToKernel` | 03-virt-addr-kern/src/executor.rs:202-274 | the caller of the resume has its sp, ra, gp, tp and s0..s11 again, and the context holds the user's registers at the trap |
| `RunQueue.FindsFirstAwake` | 02a-complex-ctx-kern/user/src/task.rs:51-60 | the loop of `pop_task` ends at the first awake task and keeps the cyclic order of the rest |
| `RunQueue.PopEndsIff` | 02a-complex-ctx-kern/user/src/task.rs:51-60 | `pop_task` ends if and only if the queue is empty or some task is awake |
| `RunQueue.RoundRobinScheduler.PushTask` | 02a-complex-ctx-kern/user/src/task.rs:48-50 | the task goes to the back |
| `RunQueue.RoundRobinScheduler.PopTask` | 02a-complex-ctx-kern/user/src/task.rs:51-60 | the first awake task is taken out, those before it go to the back |
| `RunQueue.UserTask.PollFuture` | 02a-complex-ctx-kern/user/src/execute.rs:11-13 | a completed main writes its value to the exit code, a pending one does not; the task is asleep while it is polled and afterwards unless it was woken |
| `RunQueue.SameFirstAwake` | 02a-complex-ctx-kern/user/src/task.rs:51-60 | the object's queue and the queue value agree on the first awake task |
| `RunQueue.ExecuteMain` | 02a-complex-ctx-kern/user/src/execute.rs:8-34 | the loop ends, main is polled once for every time it is pending and once more, its value is returned, and its task is asleep unless it was woken |

## Left out

- MapSolver.Solve: assumes v below 2^52 and v + n below 2^64, which page numbers of 64-bit addresses satisfy; the wrapped results outside are not described.
- RunQueue.RoundRobinScheduler.PopTask: is specified for calls that end; with only sleeping tasks the source spins, which `RunQueue.PopEndsIff` states.
- RunQueue.ExecuteMain: covers main futures that complete after some number of polls; a future that never completes keeps the loop running.
- SpaceRuns.RunRefinesFlatMap: a run ends at a request that finds a leaf in its way or panics; what these leave behind is in `LeafFollowing` and `SpaceRuns.AllocateMapIsCorrect`.
- LeafFollowing.GoodSurvivesIff: takes the data frames below the leaf to be apart from the space's own tables; a space that maps its own tables and requests pages below that mapping may write them in ways this condition does not describe.
- FrameBox ownership is represented by the frame lists of a space, not by objects of its own; the spin mutex around the allocator is an atomic call.
- Accessed and dirty bits, TLB and `sfence.vma`, privilege checks and accesses to memory that does not exist.
- `max_asid` and `activate_paged_riscv_sv39`: hardware registers; the maximum is a parameter.
- System call number dispatch, the console and SBI, boot code and image loading.
- Trap causes: only ecalls answered, yielding or exiting; the other arms end in a panic.
- The copies of these files in the 03a and 02b directories, and the batch kernels 01, 01a and 01b.
- The heap allocator, the waker library and the linker scripts.
