# A verified model of the kernel's allocators and the layers on them

The kernel keeps a handful of data structures that everything else trusts: a buddy tree for virtual ranges, a
quad-tree for physical pages, four-level page tables, `kmmap` on top of these three, the heap behind `operator new`,
a red-black tree behind `map`, the allocation table of a FAT volume, the weights of the scheduler, and the mount
resolver.  All of them are small, all keep mutable state, and in all of them the correctness of one function depends
on what several others left behind.  This project models them and proves what they keep, over every input and over
every run.  `dafny verify dfyconfig.toml` checks it.

How it is laid out:

- Objects that the kernel updates in place are classes (`BuddyAlloc`, `PhTreeAllocator`, `PhMemManager`, `Kernel`,
  `Heap`, `RbTree`, `Map`, `FileSystem`, `File`, `HlSched`, `RootfsDit`) with the same fields, branches and loops.
- Each method is proved equal to a function on values, or against a predicate on its old and new state; what these
  functions and predicates mean is proved in the module named in the table.
- Where a whole run matters, a state machine steps through the calls and its invariant is proved for every run:
  `BuddyRuns.RunsKeepInvariant`, `KernelMap.RunsKeepInvariant`.  `SetupHeap` and `Kmmap.Setup` lead to the states these
  runs start from, and `HeapOnMap` puts the heap on top of `kmmap`.  The classes `Heap`, `RbTree`, `HlSched` and
  `RootfsDit` carry theirs in `Valid()`, which every method keeps.

| files | part of the kernel |
|---|---|
| Machine, Bits | page geometry, 64-bit words |
| Buddy, BuddyTheory, BuddyHints, BuddyRuns, VirtualMemoryAllocator | `kernel/mem/vmem_allocator.hh` |
| QuadTree, QuadTreeTheory, PhTreeAllocator | `kernel/mem/phmem_allocator.hh` |
| PagePath, PageTables, PageTablesTheory, CommittedCrawl, CommittedRange, EitherCrawl, MemoryManager, CommittedBack, BackFlags, PhMemManager | `kernel/mem/phmem_manager.cc`, `kernel/mem/utils.cc` |
| KernelMap, Kmmap, SetupHeap | `kernel/kmmap.cc` |
| SlotMap, BucketLists, HeapAccounts, HeapTheory, KernelHeap | `kstdlib/new.cc` |
| HeapOnMap | `kstdlib/new.cc` on `kernel/kmmap.cc` |
| RedBlack, RbMemory, RbTree | `kstdlib/map.hh` |
| FatTable, FatChains, FatVolume, FatFile, FatFiles | `drivers/fat/fat_fs.cc`, `drivers/fat/fat_file.cc` |
| SchedShares, QueueTotals, ReadyQueue, Scheduler, SchedulerRun | `kernel/proc/sched.cpp`, `kernel/proc/scheduler_main.cc` |
| MountPaths, Rootfs | `kernel/fs/rootfs.cc`, `kernel/fs/templates.hh` |

## Two places where the code as committed is wrong

`Version` selects the code as committed or with one correction.  Both forms are modelled, and the run theorems hold for
both: for the committed one, of runs in which each call meets the condition below.

- `kernel/mem/vmem_allocator.hh:37` stores `depth - 1` for a block that was freed as a whole, with children that are
  stale; the tests that coalesce (lines 47, 56, 66) and the constructor show that `depth` is meant.  The committed
  code frees correctly if and only if the range holds no aligned pair of pages (`BuddyRuns.CommittedFreeIsExactIff`,
  `BuddyRuns.PairMeaning`); two pages mapped one by one and freed together make the next `mmap` return address 4095
  (`BuddyRuns.CommittedFreeGoesWrong`).
- `kernel/mem/phmem_manager.cc:76` takes the flags of a fresh table strictly inside the range from the entry at
  `end_index` (`BackFlags.EnterInherits`), and lines 76 and 92 also take four low bits of that entry's frame number into the new address.  A range is
  clean if at every directory that exists before the call and that it enters, either no entry behind the first lacks a
  table, or the frame number in the end entry is a multiple of 16.  `back_vmem` as committed keeps the page tables well
  formed, whatever frames its fresh tables get, if and only if the range is clean (`CommittedBack.CommittedBackIff`), and
  then every address resolves as after the corrected code (`CommittedBack.CleanBack`).
  `CommittedBack.CommittedBackAliases` is a call over a range that is not: afterwards two addresses resolve to one frame.
  `unback_vmem`, which finds all tables in place, is not affected (`CommittedCrawl.SameOnExistingTables`).

## Other behaviour a caller should know

- A failed `mmap` still calls `mark_used(alloc_null, size)`.  No page changes state, but reports may become too low: they
  stay exact if and only if no block on the way to the last page is wholly free and can be split
  (`BuddyRuns.MmapKeepsExactIff`).  `BuddyRuns.FailedMmapHidesBlock` is such a call, after which two free pages are not
  found.  In every run without such a call `mmap` takes the lowest block that fits, and fails only if there is none
  (`BuddyRuns.RunsFitLowest`).
- A hint whose end wraps around 2^64 can be handed out by a wholly free tree; that is the only way out of bounds
  (`BuddyRuns.MmapStaysInBounds`, `BuddyRuns.WrappingHintIsGranted`); `BuddyHints.WrappedFreeIff` says when it is.
- `is_range_free` refuses a range that ends where a block ends (`>=`), unless that block is the first page of a pair, and
  one that crosses the middle of a block that is not wholly free.  `mmap` takes exactly the hints that lie, with that
  exception, inside one wholly free aligned block (`BuddyHints.RangeFreeIff`, `BuddyRuns.MmapTakesHint`,
  `BuddyRuns.RunsTakeHint`).
- `operator new` indexes its bucket table inside its bounds exactly for lengths whose remainder modulo 4096 is at most
  4016 (`KernelHeap.FreshBucketIff`), and a page is given back after its last delete exactly when bits 502 to 511 of
  its bitmap were clear in the frame it came from (`KernelHeap.FreshBitsIff`).
- `map::insert` on a key that is present leaves two nodes with that key (`RbTree.Map.Insert`).
- `kmmap` does not look at whether frames are left.  A range gets frames of its own if and only if as many are free as it
  has pages (`KernelMap.KmmapKeepsInvariantIff`, `KernelMap.SufficesIff`); otherwise a page of it is mapped to the null
  address of the frame allocator.
- `find_free_cluster` reads two bytes an entry on FAT12: only step 0 reads the entry it should (`FatVolume.Fat12ScanIff`),
  and `FatVolume.Fat12ScanMisreads` is a volume on which the scan stops at a cluster in use;
  on FAT16 it scans half of the table, since the number of entries is the table size over four for every kind
  (`FatChains.Fat16ScansHalf`; `FatChains.NothingFoundIff` says exactly when nothing is found).  If
  entry 0 is zero it reports a full table; if entry 1 is the first zero it fails after it has linked the chain to
  cluster 1 in the first copy.  All of this is in the contract of `FatVolume.FileSystem.FindFreeCluster`.
- Opening a file whose first cluster is 1 fails in the seek of the constructor (`FatFile.Open`).
- `set_position` returns the offset inside the cluster, not the position, when the position changes.
- After `read` the position fields agree with the head of the device again only in the cases the contract of
  `FatFile.File.Read` names; a second read without a seek is covered only then.
- The two exceptions of the scheduler for a cycle in the graph and for a missing non-fixed weight are never thrown; a
  total weight of zero divides by zero.
- A rebuild can lose processes: `dfs_over_forward_edges` marks a node visited before it calls `dfs`, which then returns
  at once, and the search of the tree of pids is cut at that node (`ReadyQueue.ProcessLost`).  It loses none if every
  edge that leads to a process later in the tree of pids (in preorder) leads to one without children there
  (`ReadyQueue.AllQueued`); for a graph with one edge this is exact (`ReadyQueue.OneEdgeIff`).  The graph that
  `kernel/proc/scheduler_main.cc` starts with meets the condition (`ReadyQueue.StartQueued`).
- An edit of the edges alone rebuilds the queue without new shares, since `update_weights` returns early when the
  weights are marked up to date.  The shares of the new queue add up to one cycle if and only if those of the processes
  dropped and those of the processes gained have equal sums (`Scheduler.HlSched.StaleShares`); in
  `SchedulerRun.EdgeEditRun` a pass hands out three quarters of a cycle.

## Model

| member | source | states |
|---|---|---|
| BuddyTheory.MarkUsedPages | kernel/mem/vmem_allocator.hh:90-111 | mark_used takes exactly the pages the byte range touches out of the free set, stale children and out-of-bounds addresses included |
| BuddyTheory.MarkUsedExact | kernel/mem/vmem_allocator.hh:90-111 | an in-bounds mark_used keeps every trusted report exact and never leaves the block reported wholly free |
| BuddyTheory.FreeRangePages | kernel/mem/vmem_allocator.hh:35-69 | free_range of used pages frees exactly the touched pages |
| BuddyTheory.FreeRangeReports | kernel/mem/vmem_allocator.hh:35-69 | free_range of used pages keeps reports sound, and exact if they were exact |
| BuddyTheory.AcceptedRangeIsFree | kernel/mem/vmem_allocator.hh:71-86 | a range that is_range_free accepts lies in the block and is wholly free, whether or not the reports are exact |
| BuddyHints.RangeFreeIff | kernel/mem/vmem_allocator.hh:71-86 | with exact reports is_range_free accepts a range if and only if one wholly free aligned block holds it and goes on behind it, or it ends with a free page that is the first of its pair |
| BuddyHints.WrappedFreeIff | kernel/mem/vmem_allocator.hh:71-86 | a range that wraps around is accepted if and only if its end lies in a wholly free block at the end of the memory |
| BuddyTheory.ReportIsLargestFreeOrder | kernel/mem/vmem_allocator.hh:9-12 | with exact reports maxdepth is at least k if and only if some aligned block of order k is wholly free |
| BuddyTheory.BlockIsAligned | kernel/mem/vmem_allocator.hh:113-116 | the blocks of order k in the tree are exactly the aligned runs of 2^k pages that fit |
| BuddyTheory.NoEarlierBlock | kernel/mem/vmem_allocator.hh:13-33 | no aligned block below the one get_range descends to is wholly free, and none at all when the report is too low |
| BuddyTheory.GetRangeDescends | kernel/mem/vmem_allocator.hh:13-33 | get_range returns the start of the lowest block of the least order that holds the size, inside the bounds |
| BuddyTheory.MarkAfterGetRange | kernel/mem/vmem_allocator.hh:145-155 | the stale path that get_range leaves is overwritten when mark_used follows it: the result is that of mark_used on the tree before |
| BuddyRuns.MmapGrants | kernel/mem/vmem_allocator.hh:145-155 | a granted range is in bounds, was wholly free, and exactly its pages become used; a failed call changes no page |
| BuddyRuns.MmapTakesHint | kernel/mem/vmem_allocator.hh:145-155 | mmap returns every hint that lies like that in a wholly free aligned block |
| BuddyRuns.MmapIsLowestFit | kernel/mem/vmem_allocator.hh:145-155 | with any other hint mmap fails if and only if no large-enough aligned block is wholly free, and otherwise starts the lowest one |
| BuddyRuns.MarkBeyondKeepsExactIff | kernel/mem/vmem_allocator.hh:90-111 | marking a range beyond the end keeps the reports exact if and only if no block on the way to the last page is wholly free and can be split |
| BuddyRuns.MmapKeepsExactIff | kernel/mem/vmem_allocator.hh:145-155 | an mmap call keeps the reports exact if and only if it does not fail on such a tree |
| BuddyRuns.FailedMmapHidesBlock | kernel/mem/vmem_allocator.hh:150-153 | the concrete failed call after which a request for two pages fails although two aligned pages are free |
| BuddyRuns.MmapStaysInBounds | kernel/mem/vmem_allocator.hh:145-155 | a granted range is in bounds if and only if it is not an accepted hint that wraps around |
| BuddyRuns.WrappingHintIsGranted | kernel/mem/vmem_allocator.hh:71-74 | the concrete hint 2^64 - 4096 that a fresh allocator grants out of bounds |
| BuddyRuns.CommittedFreeIsExactIff | kernel/mem/vmem_allocator.hh:35-69 | as committed, a free of used pages is right if and only if the range holds no aligned pair of pages |
| BuddyRuns.PairMeaning | kernel/mem/vmem_allocator.hh:35-69 | the guard "holds an aligned pair" is true if and only if two pages that form a block of order 1 lie in the range |
| BuddyRuns.CommittedFreeGoesWrong | kernel/mem/vmem_allocator.hh:37 | the concrete run after which mmap returns address 4095 |
| BuddyRuns.MmapStepSafe | kernel/mem/vmem_allocator.hh:145-155 | in any state of a run, a grant is in bounds and disjoint from every live and reserved page, and all other holdings are as before |
| BuddyRuns.MunmapStepSafe | kernel/mem/vmem_allocator.hh:156-159 | munmap of held pages keeps "free exactly when neither held nor reserved" |
| BuddyRuns.RunsKeepInvariant | kernel/mem/vmem_allocator.hh:142-165 | after any run of mmap, failed ones included, and munmap of held pages, the used pages are exactly the held and reserved ones; as committed, of ranges without an aligned pair |
| BuddyRuns.StepKeepsExactIff | kernel/mem/vmem_allocator.hh:142-165 | one call of a run keeps the reports exact if and only if it is not an mmap that fails and splits a wholly free block |
| BuddyRuns.RunsKeepExact | kernel/mem/vmem_allocator.hh:142-165 | the reports are exact after every run without such a call |
| BuddyRuns.RunsTakeHint | kernel/mem/vmem_allocator.hh:142-165 | after every such run mmap returns every hint that lies in an aligned block free of held and reserved pages |
| BuddyRuns.RunsFitLowest | kernel/mem/vmem_allocator.hh:142-165 | after every such run an mmap with any other hint fails if and only if no large-enough aligned block is free of held and reserved pages, and otherwise grants the lowest one |
| BuddyRuns.StartIsExact | kernel/mem/vmem_allocator.hh:160-162 | the allocator with one range reserved is a state these runs start from |
| VirtualMemory.BuddyAlloc.constructor | kernel/mem/vmem_allocator.hh:12 | the objects form the fresh tree of the given order |
| VirtualMemory.BuddyAlloc.MarkUsed | kernel/mem/vmem_allocator.hh:90-111 | updates the tree of objects in place as the function of the old reports says |
| VirtualMemory.BuddyAlloc.FreeRange | kernel/mem/vmem_allocator.hh:35-69 | the same for free_range, in both versions |
| VirtualMemory.BuddyAlloc.IsRangeFree | kernel/mem/vmem_allocator.hh:71-86 | answers as the function does, changing nothing |
| VirtualMemory.BuddyAlloc.GetRange | kernel/mem/vmem_allocator.hh:13-33 | returns the address and leaves exactly the path and leaf marks the function describes |
| VirtualMemory.VirtualMemoryAllocator.constructor | kernel/mem/vmem_allocator.hh:141-165 | starts from the fresh tree |
| VirtualMemory.VirtualMemoryAllocator.Mmap | kernel/mem/vmem_allocator.hh:145-155 | returns the address and leaves the tree that the run theorems speak of |
| VirtualMemory.VirtualMemoryAllocator.Munmap | kernel/mem/vmem_allocator.hh:156-159 | leaves the tree that the run theorems speak of |
| VirtualMemory.VirtualMemoryAllocator.MarkUsed | kernel/mem/vmem_allocator.hh:160-162 | marks a range in place |
| QuadTreeTheory.FullMeansAllUsed | kernel/mem/phmem_allocator.hh:11 | a tree with honest caches calls itself full if and only if all its pages are used |
| QuadTreeTheory.FreshIsEmpty | kernel/mem/phmem_allocator.hh:59-62 | a fresh tree is honest and no page is used |
| QuadTreeTheory.GetPageIsLowest | kernel/mem/phmem_allocator.hh:13-26 | get_page returns the lowest free page at every depth, and null with nothing changed exactly when the tree is full |
| QuadTreeTheory.GetPageMarksOnlyIt | kernel/mem/phmem_allocator.hh:13-26 | the page returned becomes used and no other |
| QuadTreeTheory.ReleaseFreesOnlyIt | kernel/mem/phmem_allocator.hh:28-34 | release_page frees the page of its address and no other; an address beyond the end frees nothing |
| QuadTreeTheory.ReleaseUndoesGet | kernel/mem/phmem_allocator.hh:13-34 | releasing what get_page returned restores the set of used pages |
| QuadTreeTheory.MarkUsedAddsRange | kernel/mem/phmem_allocator.hh:36-57 | mark_used adds exactly the pages touched by the inclusive byte range |
| PhysicalMemory.PhTreeAllocator.constructor | kernel/mem/phmem_allocator.hh:59-62 | the objects form the fresh tree of the given level |
| PhysicalMemory.PhTreeAllocator.GetPage | kernel/mem/phmem_allocator.hh:13-26 | returns and marks in place what the function of the old tree says, caches refreshed |
| PhysicalMemory.PhTreeAllocator.GetPageOfWord | kernel/mem/phmem_allocator.hh:69-77 | the scan of a 64-page word finds and sets its lowest clear bit |
| PhysicalMemory.PhTreeAllocator.ReleasePage | kernel/mem/phmem_allocator.hh:28-34 | releases in place as the function says |
| PhysicalMemory.PhTreeAllocator.MarkUsed | kernel/mem/phmem_allocator.hh:36-57 | marks in place as the function says, whatever children the range meets |
| PhysicalMemory.PhTreeAllocator.MarkWord | kernel/mem/phmem_allocator.hh:79-89 | the loop over a word sets exactly the bits of the clipped range |
| PageTablesTheory.CrawlKeeps | kernel/mem/phmem_manager.cc:37-100 | for any number of levels a crawl keeps the tables well formed and changes nothing but the table it starts from and those below it |
| PageTablesTheory.CrawlTraced | kernel/mem/phmem_manager.cc:23-100 | for any number of levels the page callback is called exactly once, in increasing order, for every page number of the range and no other; each call meets the entry the page had, and its result stays |
| PageTablesTheory.CrawlOutside | kernel/mem/phmem_manager.cc:37-100 | a page outside the range is found as before, or found unmapped in the new table that replaced a large page |
| CommittedCrawl.SameOnExistingTables | kernel/mem/phmem_manager.cc:68-95 | with all tables in place the committed and the corrected crawl do the same, for either operation |
| CommittedRange.LikeCrawl | kernel/mem/phmem_manager.cc:37-100 | over a clean range the committed crawl of back_vmem, fresh tables included, leaves the tables of the corrected one up to flags that no walk depends on |
| CommittedRange.SpoiledCrawl | kernel/mem/phmem_manager.cc:67-92 | over any other range the committed crawl leaves an entry that leads to no table, if the fresh frames are multiples of 16 |
| EitherCrawl.StepBeside | kernel/mem/phmem_manager.cc:46-95 | one directory entry of the crawl in either version keeps step with the corrected crawl: unback_vmem always, back_vmem over a clean range |
| MemoryManager.IndicesValue | kernel/mem/phmem_manager.cc:43-44 | the four indices taken from an address spell its page number |
| MemoryManager.NotCanonicalIff | kernel/mem/phmem_manager.cc:111-113 | the guard refuses exactly the addresses from 2^48 to 2^64 - 2^48 |
| MemoryManager.ResolveAnswers | kernel/mem/utils.cc:8-54 | on well-formed tables resolve_to_phmem answers according to the entry the four indices lead to |
| MemoryManager.BackMapsRange | kernel/mem/phmem_manager.cc:106-138 | after back_vmem every canonical address of the range resolves, writable, to the frame its page was given |
| MemoryManager.BackKeepsOthers | kernel/mem/phmem_manager.cc:106-138 | every other address resolves as before; only a large page whose table the range needs is given up |
| MemoryManager.UnbackUnmapsRange | kernel/mem/phmem_manager.cc:140-156 | after unback_vmem on pages whose tables exist no address of the range is mapped |
| MemoryManager.UnbackKeepsOthers | kernel/mem/phmem_manager.cc:140-156 | every other address resolves exactly as before |
| BackFlags.BackMarks | kernel/mem/phmem_manager.cc:106-138 | after back_vmem, in either version, the three directory entries on the way to every page of the range have the requested flags beside P and RW, and the page entry has these and no others |
| BackFlags.BackAddsOnly | kernel/mem/phmem_manager.cc:106-138 | as corrected no other bit but OS_CRAWLABLE is set in any entry of any table |
| BackFlags.EnterInherits | kernel/mem/phmem_manager.cc:76 | as committed a fresh entry strictly inside the range has the flags of the end entry, but for the one of a large page |
| BackFlags.UnbackClearsOnly | kernel/mem/phmem_manager.cc:140-156 | unback_vmem, in either version, adds no table, and leaves every entry as it was or without P |
| CommittedBack.CommittedBackIff | kernel/mem/phmem_manager.cc:106-138 | as committed, back_vmem keeps the page tables well formed for every supply of fresh frames if and only if its range is clean over the tables before the call |
| CommittedBack.CleanBack | kernel/mem/phmem_manager.cc:106-138 | over a clean range every address resolves as after the corrected call, the frame allocator and the visits are the same |
| CommittedBack.CommittedBackAliases | kernel/mem/phmem_manager.cc:76 | the concrete back_vmem call after which the addresses 200000 and 400000 resolve to one frame |
| PhysicalMapping.PhMemManager.CallbackPage | kernel/mem/phmem_manager.cc:128-131 | one visit of a page: the entry, the frame allocator and the record of calls change as specified, for both callbacks |
| PhysicalMapping.PhMemManager.CrawlTablesLvl1 | kernel/mem/phmem_manager.cc:23-34 | the loop over a leaf table visits the entries from the first to the last index |
| PhysicalMapping.PhMemManager.EnterDirectory | kernel/mem/phmem_manager.cc:46-59 | makes an entry lead to a table, in both versions, and calls the directory callback; what flags that leaves is in the rows of BackFlags |
| PhysicalMapping.PhMemManager.CrawlTables | kernel/mem/phmem_manager.cc:37-100 | the three-part crawl with its sentinel addresses is the crawl the theorems speak of, in both versions |
| PhysicalMapping.PhMemManager.BackVmem | kernel/mem/phmem_manager.cc:106-138 | refuses non-canonical addresses and otherwise leaves the state the theorems speak of; as committed, for clean ranges |
| PhysicalMapping.PhMemManager.UnbackVmem | kernel/mem/phmem_manager.cc:140-156 | leaves the state the theorems speak of, in both versions |
| KernelMap.FramesTaken | kernel/mem/phmem_manager.cc:128-132 | the frames one back_vmem takes were free, are pairwise distinct, and are all that becomes used |
| KernelMap.FramesGiven | kernel/mem/phmem_manager.cc:148-152 | one unback_vmem gives back exactly the frames of the entries it meets |
| KernelMap.KmmapKeepsInvariant | kernel/kmmap.cc:15-21 | kmmap keeps range allocator, tables and frame allocator in step, failed calls included, in both versions |
| KernelMap.KmmapKeepsInvariantIff | kernel/kmmap.cc:15-21 | a kmmap that is granted a range keeps them in step if and only if as many frames are free as the range has pages |
| KernelMap.SufficesIff | kernel/mem/phmem_allocator.hh:13-26 | n frames can be taken one after the other if and only if at least n are free |
| KernelMap.KmmapTakesHint | kernel/kmmap.cc:15-21 | kmmap returns every hint of the kernel's range that lies in an aligned block free of held and reserved pages, while the reports are exact |
| KernelMap.KmunmapKeepsInvariant | kernel/kmmap.cc:23-27 | kmunmap of held pages keeps them in step |
| KernelMap.RunsKeepInvariant | kernel/kmmap.cc:15-27 | so does every run of the two |
| KernelMap.HeldPagesResolve | kernel/kmmap.cc:15-27 | after any run every held page resolves, writable, to its own frame at every offset, its entry has the flags P and RW and no others, no two held pages share a frame, none has that of a page table, and the used frames are exactly the initial ones and those |
| KernelMap.SetupEstablishesInvariant | kernel/kmmap.cc:29-84 | after setup_heap on any sorted memory map, with the page tables of the boot code in the image, the runs above may start: nothing held, the image reserved, and the used frames are those not wholly available or in the image |
| KernelMap.InitialFrames | kernel/kmmap.cc:48-84 | a frame is used at the start if and only if some byte of it is not available or in the image |
| Kmmap.Kernel.constructor | kernel/kmmap.cc:7-9 | the three allocators joined, with nothing held, from a state the run theorems start from |
| Kmmap.Setup | kernel/kmmap.cc:29-84 | setup_heap in place: builds both allocators over the given memory map and leaves the joined kernel in a state the run theorems start from; the frame of every address from kernel_begin to kernel_end is never handed out, nor is its page |
| Kmmap.Kernel.Kmmap | kernel/kmmap.cc:15-21 | moves the joined state one step of the run, and returns null, throws, or the address of the granted range |
| Kmmap.Kernel.Kmunmap | kernel/kmmap.cc:23-27 | moves the joined state one step of the run |
| SetupHeap.AllCovers | kernel/kmmap.cc:48-84 | for every sorted map, a byte below 4 GiB is marked if and only if it is in the kernel image or in no available entry |
| SetupHeap.FreePagesAreAvailable | kernel/kmmap.cc:48-84 | a page below 4 GiB is left free if and only if all its bytes are available and none is in the kernel image |
| SetupHeap.UsedIsTaken | kernel/kmmap.cc:48-84 | in terms of kernel_begin, kernel_end and kernel_zero: a page is used if and only if one of its bytes is not available or is the physical byte of an address from kernel_begin to kernel_end |
| SetupHeap.SetupPhysical | kernel/kmmap.cc:48-84 | the loop over the map marks exactly the ranges of the theorem, in place, so that a page is used if and only if a byte of it is not available or belongs to an address from kernel_begin to kernel_end |
| SetupHeap.SetupVirtual | kernel/kmmap.cc:39-41 | the kernel image is reserved in a fresh range allocator |
| SlotMap.FindAperture | kstdlib/new.cc:16-29 | returns the lowest offset with that many free slots, and 503 exactly when there is none |
| SlotMap.FindMaxApertsize | kstdlib/new.cc:31-40 | returns the length of the longest free run |
| SlotMap.ApertureIff | kstdlib/new.cc:16-40 | a run of k free slots exists if and only if the longest one is at least k |
| BucketLists.PushKeepsLinked | kstdlib/new.cc:171-175 | relinking a page at the front keeps all doubly linked lists well formed |
| BucketLists.CutKeepsLinked | kstdlib/new.cc:157-163 | unlinking a page from any place of its list keeps all lists well formed, the page on none and every other page where it was |
| HeapAccounts.NewInPage | kstdlib/new.cc:47-73 | handing out a free run keeps "set bits are exactly the slots of live blocks" and all live blocks apart |
| HeapAccounts.NewPages | kstdlib/new.cc:75-102 | handing out fresh pages, one or several, keeps the accounts |
| HeapAccounts.DeleteBits | kstdlib/new.cc:120-152 | clearing the slots of a live block and giving back its head pages leaves the accounts of the other blocks |
| HeapAccounts.DropEmptyPage | kstdlib/new.cc:165-169 | a page whose bitmap is zero belongs to no live block, so giving it back keeps the accounts |
| HeapAccounts.NothingLiveNothingHeld | kstdlib/new.cc:112-176 | with no live block left no page is held |
| HeapTheory.HeldIsOwned | kstdlib/new.cc:42-176 | a page is held if and only if a live block has a slot, a head page or its last page there |
| HeapTheory.LiveBlocksDisjoint | kstdlib/new.cc:42-176 | two live blocks overlap in no byte |
| HeapTheory.BlocksAvoidTrailers | kstdlib/new.cc:42-176 | no byte of a live block lies in the last 80 bytes of a page with a bitmap |
| HeapTheory.ShortestIsBest | kstdlib/new.cc:48-52 | the first non-empty bucket holds a page with the shortest longest run that is enough, and no page fits if all are empty |
| KernelHeap.MarkSlots | kstdlib/new.cc:55-59 | sets exactly the run; the assertion against overwriting never fails |
| KernelHeap.ClearSlots | kstdlib/new.cc:147-151 | clears exactly the slots of a block; the assertion against double deletes never fails on a live block |
| KernelHeap.InitSlots | kstdlib/new.cc:85-91 | a fresh bitmap has exactly its first slots set among 502 and its other bits as found |
| KernelHeap.ClearBlock | kstdlib/new.cc:120-152 | the big and the small way of delete both clear exactly the block's slots and, for a big block, its mark |
| KernelHeap.AllZero | kstdlib/new.cc:165-168 | the word-by-word test is true if and only if no bit is set |
| KernelHeap.FreshBucketIff | kstdlib/new.cc:83-98 | the bucket index is in the table if and only if the length leaves room for the trailer |
| KernelHeap.FreshBitsIff | kstdlib/new.cc:85-91 | a page comes back to all zero words if and only if bits 502 to 511 were clear in the frame |
| KernelHeap.Heap.constructor | kstdlib/new.cc:12-14 | empty lists, nothing live, nothing held |
| KernelHeap.Heap.Unlink | kstdlib/new.cc:157-163 | the pointer updates are the cut of the theory, head included |
| KernelHeap.Heap.Relink | kstdlib/new.cc:171-175 | the pointer updates are the push of the theory |
| KernelHeap.Heap.TakeFrom | kstdlib/new.cc:47-73 | serves a new block from the lowest room of the bucket's first page and keeps the whole heap invariant; the aperture promised is found |
| KernelHeap.Heap.TakeFresh | kstdlib/new.cc:75-102 | serves a new block from the granted pages and holds exactly these in addition |
| KernelHeap.Heap.OperatorNew | kstdlib/new.cc:42-103 | keeps the heap invariant, adds exactly one live block at an address that was not live, best fit if any held page has room, and asks for pages only otherwise |
| KernelHeap.Heap.GiveBackOrRelink | kstdlib/new.cc:165-175 | an empty page is given back once, another one goes to the list of its longest run |
| KernelHeap.Heap.OperatorDelete | kstdlib/new.cc:112-176 | keeps the heap invariant, removes exactly the block, and gives back all its head pages, its last page at most, and no other, each of them no longer held |
| HeapOnMap.Allocator.constructor | kstdlib/new.cc:12-14 | an empty heap over any valid state of `kmmap` |
| HeapOnMap.Allocator.Ask | kstdlib/new.cc:75-83 | what kmmap grants is whole pages, new to the heap and now held by the kernel, and no others; it is refused only if no block of the range allocator fits |
| HeapOnMap.Allocator.New | kstdlib/new.cc:42-103 | adds one block at an address that was not live, takes pages only if no held page has room, and then exactly those of the block, all of them from the kernel, whose other pages stay; fails if and only if no page has room and kmmap refuses |
| HeapOnMap.Allocator.Delete | kstdlib/new.cc:112-176 | removes the block, and the kernel gives up exactly the pages that the heap gives up, so its other pages stay |
| HeapOnMap.Allocator.Unmap | kernel/kmmap.cc:23-27 | unmapping pages of the heap takes exactly these from the kernel and keeps the others held |
| HeapOnMap.StepGrants | kernel/kmmap.cc:15-21 | a kmmap without hint that is granted adds exactly a run of whole pages that was not held |
| HeapOnMap.StepReleases | kernel/kmmap.cc:23-27 | unmapping pages of the heap is a legal call, and exactly these pages are no longer held |
| RedBlack.PlugContents | kstdlib/map.hh:107-123 | a tree with a hole lists what is before, in and behind the hole in order |
| RedBlack.InsertedSorted | kstdlib/map.hh:97-126 | an insertion behind all elements that are not greater keeps the order and adds exactly one element |
| RedBlack.InsertedDistinctIff | kstdlib/map.hh:355-360 | keys stay distinct if and only if the key was absent |
| RedBlack.HeightIsLogarithmic | kstdlib/map.hh:97-166 | a red-black tree of n elements has 2^height at most (n+1)^2 |
| RedBlack.RecoloredKeeps | kstdlib/map.hh:133-137 | the red-uncle case moves the only possible clash two levels up, black heights and contents kept |
| RedBlack.TurnedKeeps | kstdlib/map.hh:139-142 | turning an inner grandchild makes it an outer one with the same clash and contents |
| RedBlack.StraightenedKeeps | kstdlib/map.hh:143-145 | repainting and rotating the grandparent removes the clash, contents kept |
| RedBlack.FinishedIsFine | kstdlib/map.hh:165 | blackening the root at the end gives a red-black tree of the same contents |
| RedBlack.AddedLeaf | kstdlib/map.hh:107-123 | a red leaf where the search ends breaks at most the red-red rule there, and adds its value in order |
| RedBlack.OtherBindings | kstdlib/map.hh:355-360 | an insertion changes no binding of another key |
| RbMemory.LeftRotationHolds | kstdlib/map.hh:270-286 | the pointer writes of rotate_left turn the stored tree into the rotated one, all parent links consistent |
| RbMemory.RightRotationHolds | kstdlib/map.hh:289-305 | the same for rotate_right |
| RbMemory.RecolorHolds | kstdlib/map.hh:134-136 | the three colour writes store the recoloured tree |
| RbMemory.TurnHolds | kstdlib/map.hh:139-142 | moving up and rotating stores the turned tree, in both mirror images |
| RbMemory.StraightenHolds | kstdlib/map.hh:143-145 | repainting and rotating stores the straightened tree, in both mirror images |
| RbTree.RbTree.RotateLeft | kstdlib/map.hh:270-286 | performs exactly these pointer writes, root included |
| RbTree.RbTree.RotateRight | kstdlib/map.hh:289-305 | the mirror image |
| RbTree.RbTree.InsertFixup | kstdlib/map.hh:129-166 | terminates with a red-black tree of the same contents and nodes |
| RbTree.RbTree.Insert | kstdlib/map.hh:97-126 | adds exactly one element, behind those not greater, and keeps order, colours, black heights and parent links |
| RbTree.RbTree.FindNode | kstdlib/map.hh:332-344 | returns a node with the key, and null exactly when there is none |
| RbTree.RbTree.Revalue | kstdlib/map.hh:383 | writing the value of a found node rebinds its key and no other |
| RbTree.Map.Insert | kstdlib/map.hh:355-360 | inserts the pair; the map stays a map if and only if the key was absent |
| RbTree.Map.Index | kstdlib/map.hh:375-384 | returns the node of the key, inserted only if it was absent |
| RbTree.Map.Store | kstdlib/map.hh:375-384 | afterwards the key is bound to the value and every other binding is as before |
| RbTree.Map.At | kstdlib/map.hh:387-395 | returns the one bound value, and fails exactly when the key is absent |
| FatTable.ReadAfterWrite | drivers/fat/fat_fs.cc:170-287 | an entry read after it was written is the value masked to 12, 16 or 28 bits (section 4.1 of the Microsoft FAT Specification) |
| FatTable.OthersKept | drivers/fat/fat_fs.cc:249-287 | every other entry of every copy is unchanged, also the FAT12 neighbour that shares a byte |
| FatTable.TopBitsSurvive | drivers/fat/fat_fs.cc:277-285 | the top four bits of a FAT32 entry survive a write |
| FatTable.BytesKept | drivers/fat/fat_fs.cc:249-287 | bytes outside the written word are unchanged |
| FatTable.EntryBytes | drivers/fat/fat_fs.cc:154-199 | an entry byte by byte: where it lies and which bits of which bytes make it up, for each of the three kinds |
| FatTable.Marks | drivers/fat/fat_fs.cc:51-58 | the end mark is the largest value of an entry and the mark of a bad cluster eight less |
| FatTable.ClustersApart | drivers/fat/fat_fs.cc:148-153 | two clusters share no byte |
| FatTable.ClusterBehindTables | drivers/fat/fat_fs.cc:148-153 | with the first data sector behind the tables no cluster overlaps a copy of the table |
| FatChains.ChainAcyclic | drivers/fat/fat_fs.cc:170-199 | a chain that ends with the end mark never meets itself |
| FatChains.DisjointIff | drivers/fat/fat_fs.cc:170-199 | two chains are disjoint if and only if they end in different clusters |
| FatChains.ScannedIsEntry | drivers/fat/fat_fs.cc:205-230 | on FAT16 and FAT32 step i of the scan reads the entry of cluster i |
| FatChains.ExtendedEntry | drivers/fat/fat_fs.cc:237-245 | what every entry of every copy holds after the writes for the first n copies |
| FatChains.ExtensionKeepsChains | drivers/fat/fat_fs.cc:201-247 | the new cluster was on no chain, the chain that ended in the last cluster grows by it, every other chain is unchanged, the copies stay equal |
| FatChains.GrownDisjoint | drivers/fat/fat_fs.cc:201-247 | disjoint chains stay disjoint, the new one included |
| FatChains.FoundClusterExtends | drivers/fat/fat_fs.cc:201-247 | on FAT16 and FAT32 the cluster the scan stops at is the lowest free one, and linking it has all these effects and leaves the data area alone |
| FatChains.NothingFoundIff | drivers/fat/fat_fs.cc:206-236 | on FAT16 and FAT32 with the reserved entries in use the scan finds nothing if and only if no cluster c is free for which 4 * c + 4 is at most the size of the table; on FAT32 if and only if none is free at all |
| FatChains.Fat16ScansHalf | drivers/fat/fat_fs.cc:118 | the concrete FAT16 volume of 5000 clusters, with a geometry the constructor derives, whose free cluster 4000 the scan never reaches |
| FatVolume.FileSystem.FindFatEntry | drivers/fat/fat_fs.cc:170-199 | returns the decoded entry and rejects clusters 0 and 1 |
| FatVolume.FileSystem.WriteFatEntry | drivers/fat/fat_fs.cc:249-287 | leaves the disk with that one entry written, and rejects clusters 0 and 1 with the disk unchanged |
| FatVolume.FileSystem.ScanStep | drivers/fat/fat_fs.cc:208-230 | one step of the scan and where it leaves the head |
| FatVolume.FileSystem.FirstFree | drivers/fat/fat_fs.cc:203-236 | stops at the first step that reads zero, or never |
| FatVolume.FileSystem.FindFreeCluster | drivers/fat/fat_fs.cc:201-247 | result and disk in all four cases: nothing found, entry 0, entry 1, and a cluster found and linked in every copy |
| FatVolume.Fat12ScanReads | drivers/fat/fat_fs.cc:208-220 | which bits of which bytes step i of the scan takes on FAT12 |
| FatVolume.Fat12ScanIff | drivers/fat/fat_fs.cc:208-220 | on FAT12 step i of the scan reads the entry of cluster i on every disk if and only if i is 0 |
| FatVolume.Fat12ScanMisreads | drivers/fat/fat_fs.cc:208-220 | the concrete FAT12 volume of 100 clusters on which the scan stops at a cluster that is in use |
| FatFile.ChainReaches | drivers/fat/fat_file.cc:33-45 | reading along a chain reaches exactly byte j of its cluster q, which lies at first_data_sector * bytes_per_sector + (number of cluster q - 2) * cluster_size + j, for every cluster, and says "too long" behind the last |
| FatFiles.PlacesApart | drivers/fat/fat_fs.cc:148-153 | two bytes of two files are at one place on the disk if and only if they are the same byte of the same cluster |
| FatFiles.BrokenChain | drivers/fat/fat_file.cc:35-43 | the error where a chain breaks off, for each of the four tests |
| FatFiles.FilesKeepContents | drivers/fat/fat_fs.cc:237-245 | when a free cluster is linked to a chain, or starts one, every byte of every readable chain stays where it was and what it was |
| FatFile.File.constructor | drivers/fat/fat_file.cc:5-19 | position 0 in the first cluster, and the head of the device there, unless the file is empty |
| FatFile.Open | drivers/fat/fat_file.cc:5-19 | opening fails if and only if the first cluster is 1, and otherwise leaves a file that can be read at once |
| FatFile.File.NextCluster | drivers/fat/fat_file.cc:35-43 | one step along the chain with its four tests |
| FatFile.File.SetPosition | drivers/fat/fat_file.cc:21-57 | a new position in the file is taken if and only if the chain reaches it, and then position, cluster, offset and device head agree; otherwise the error says where the chain stops, and cluster and offset are as before |
| FatFile.File.Read | drivers/fat/fat_file.cc:59-122 | from the open file on and for empty files too: delivers exactly the bytes of the concatenated chain, clipped to the file, succeeds if and only if the chain reaches the last of them, and says exactly when the fields agree afterwards |
| FatFile.File.ReadOn | drivers/fat/fat_file.cc:81-119 | the whole clusters and the last partial one continue the bytes already read |
| FatFile.File.ReadLast | drivers/fat/fat_file.cc:101-119 | the first part of one more cluster continues the bytes, and position, cluster, offset and head agree afterwards |
| FatFile.File.ReadNext | drivers/fat/fat_file.cc:83-96 | the next cluster's first bytes, and where the head is left |
| SchedShares.RootUnique | kernel/proc/sched.cpp:67-83 | the floor square root is determined by its two inequalities |
| SchedShares.DistributedKeeps | kernel/proc/sched.cpp:109-125 | the second pass keeps the total of the non-fixed weights exactly, and the fixed ones, without overflow |
| SchedShares.FilledSum | kernel/proc/sched.cpp:132-142 | giving the remainder to the last entry makes the shares exactly 2^32 |
| SchedShares.UpdatedMeans | kernel/proc/sched.cpp:85-145 | update_weights keeps all weight totals, shares the non-fixed total out in proportion to the roots of the balances (half the cycle counter for a new process) and exactly 2^32 in proportion to the new weights, each rounded down with the rest for the last one, and zeroes the balances, for every queue with a positive total weight below 2^32 |
| SchedShares.UpdatedTimes | kernel/proc/sched.cpp:126-142 | whatever the total was before, one that is in range afterwards has been shared out in proportion to the weights |
| Scheduler.Isqrt | kernel/proc/sched.cpp:67-83 | the digit loop computes the exact floor square root of a byte |
| Scheduler.TakeRoots | kernel/proc/sched.cpp:99-106 | first pass: new balances and both 64-bit totals |
| Scheduler.FloorAll | kernel/proc/sched.cpp:111-118 | second pass: rounded weights, their total, and the last node with a non-fixed weight |
| Scheduler.Distribute | kernel/proc/sched.cpp:109-125 | the remainder goes to that node; the exception for a missing one is never thrown |
| Scheduler.ResetBalances | kernel/proc/sched.cpp:126-130 | third pass: zero balances and the total weight |
| Scheduler.GiveTime | kernel/proc/sched.cpp:132-142 | fourth pass: 2^32 in proportion to the weights, rounded down, and the rest for the tail |
| Scheduler.RunPasses | kernel/proc/sched.cpp:98-142 | the four loops over the queue compute in place what the theorems speak of |
| ReadyQueue.AllQueued | kernel/proc/sched.cpp:211-247 | a rebuild queues every process if every edge that leads to a process later in the tree of pids leads to one without children there, so in particular without edges |
| ReadyQueue.OneEdgeIff | kernel/proc/sched.cpp:211-247 | for a graph with one edge every process is queued if and only if the edge does not lead to a later process that has a child in the tree of pids |
| ReadyQueue.LaterIsPreorder | kernel/proc/sched.cpp:213-229 | "later" is the order in which the search visits the tree of pids |
| ReadyQueue.StartQueued | kernel/proc/scheduler_main.cc:23-28 | the graph the kernel starts with meets the condition, and its queue has all three processes in order |
| ReadyQueue.RebuiltOnce | kernel/proc/sched.cpp:174-184 | the rebuilt queue has no pid twice |
| ReadyQueue.FourQueued | kernel/proc/sched.cpp:211-230 | the queue of four processes without edges |
| ReadyQueue.ProcessLost | kernel/proc/sched.cpp:232-247 | the same four processes with one edge, which takes one of them off the queue |
| Scheduler.BalanceCapped | kernel/proc/sched.cpp:54-63 | in a settled queue no balance exceeds the number of cycles between updates, or one if that is zero |
| QueueTotals.StaleSums | kernel/proc/sched.cpp:86-89 | shares that nobody gives anew have the same sum over two queues if and only if those of the entries dropped and those of the entries gained have |
| QueueTotals.SameSums | kernel/proc/sched.cpp:86-89 | the same entries in another order have the same sums of shares and of weights |
| Scheduler.HlSched.StaleShares | kernel/proc/sched.cpp:85-91 | a pass that begins after an edit of the edges alone hands out the old shares; they add up to 2^32 if and only if what was dropped and what was gained have equal sums, and the queue is settled if it has the same processes |
| SchedulerRun.RunPass | kernel/proc/scheduler_main.cc:31-44 | a pass in which every process ends gracefully hands out the whole sum of the shares it started with |
| SchedulerRun.EdgeEditRun | kernel/proc/sched.cpp:86-89 | a run of four processes: the first pass hands out 2^32, and after an edge is added the second three quarters of it |
| Scheduler.HlSched.constructor | kernel/proc/sched.hh:68-78 | an empty scheduler |
| Scheduler.HlSched.AddProcess | kernel/proc/sched.cpp:15-26 | a new process in the tree of pids without edges, graph and weights out of date, a settled queue still settled |
| Scheduler.HlSched.AddEdge | kernel/proc/sched.cpp:37-44 | one edge more, graph out of date, shares untouched, a settled queue still settled |
| Scheduler.HlSched.RemoveEdge | kernel/proc/sched.cpp:45-52 | one edge less, graph out of date, shares untouched, a settled queue still settled |
| Scheduler.HlSched.Dfs | kernel/proc/sched.cpp:211-230 | terminates on any graph, cycles included, with the search that the theorems speak of; what is visited is queued once or on the stack; the exception is never thrown |
| Scheduler.HlSched.DfsOverForwardEdges | kernel/proc/sched.cpp:232-247 | the same for the search along edges |
| Scheduler.HlSched.Rebuild | kernel/proc/sched.cpp:174-184 | the queue of the search, with every pid at most once and at most 2^16 of them |
| Scheduler.HlSched.UpdateWeights | kernel/proc/sched.cpp:85-145 | outcome and new state in all cases: up to date, empty queue, zero total weight, shared out in the proportions of the theorem |
| Scheduler.HlSched.ShareOut | kernel/proc/sched.cpp:92-142 | the four passes over the ready queue leave the weights, balances and shares the theorems speak of, edges untouched |
| Scheduler.HlSched.ExecReport | kernel/proc/sched.cpp:54-63 | accepted exactly while waiting; only an ungraceful end of a process whose weight is not fixed raises its balance, in 8 bits; a settled queue stays settled |
| Scheduler.HlSched.StartPass | kernel/proc/sched.cpp:173-191 | a rebuild exactly if the graph was edited, then the updates that are due; once settled it cannot fail, unless processes were added, and after an edit of edges the sum is 2^32 if and only if dropped and gained shares agree |
| Scheduler.HlSched.Issue | kernel/proc/sched.cpp:195-208 | the command, the iterator and the cycle counter of one entry, and a settled queue stays settled |
| Scheduler.HlSched.Next | kernel/proc/sched.cpp:169-209 | refused while waiting with nothing changed; otherwise the next entry of the pass, or of the pass that StartPass begins, with its share; a settled queue stays settled and has a next entry, also after an edit that leaves the same processes queued |
| Scheduler.HlSched.PassIsWhole | kernel/proc/sched.cpp:169-209 | a complete pass over a settled queue issued every queued process once, in order, with shares that sum to 2^32, spin_after on the last one only |
| MountPaths.CanonicalIsJoined | kernel/fs/rootfs.cc:87-95 | mount point plus path of the top iterator is the slash-joined stack of names entered, through any number of mounts |
| MountPaths.EnterDirectory | kernel/fs/templates.hh:73 | a directory on top adds its name to the one stack of names |
| MountPaths.LeaveDirectory | kernel/fs/templates.hh:63-65 | ".." inside a file system removes the last name |
| MountPaths.EnterMount | kernel/fs/rootfs.cc:71-77 | a mount point adds its name to the one stack of names |
| MountPaths.LeaveMount | kernel/fs/rootfs.cc:68-70 | ".." at the top of a mounted file system removes the name of the mount point |
| Rootfs.CohDit.Push | kernel/fs/templates.hh:60-74 | answer and stack of names for ".", ".." and any other name, the empty one included |
| Rootfs.CohDit.GetCanonicalPath | kernel/fs/templates.hh:76-82 | the loop returns the slash-joined names |
| Rootfs.Rootfs.LookupMnt | kernel/fs/rootfs.cc:134-141 | the first mount with that path, and none exactly when there is none |
| Rootfs.Rootfs.Mount | kernel/fs/rootfs.cc:143-150 | succeeds exactly when an entry is free, fills the first free one, adds that path and keeps every other mount |
| Rootfs.RootfsDit.GetCanonicalPath | kernel/fs/rootfs.cc:87-95 | the slash-joined stack of names, whatever mounts it runs through |
| Rootfs.RootfsDit.Feed | kernel/fs/rootfs.cc:8-85 | for every name the answer, the stack of names and the stack of iterators afterwards: the file system on top first, then the mount table |
| Rootfs.RootfsDit.FeedTop | kernel/fs/rootfs.cc:26-70 | the part that the iterator on top decides |
| Rootfs.RootfsDit.TryMount | kernel/fs/rootfs.cc:71-80 | the part that the mount table decides |
| Rootfs.RootfsDit.Descend | kernel/fs/rootfs.cc:74-77 | a level more, at the root of the file system mounted first at the path, or the failed assertion at the 33rd |
| Rootfs.RootfsDit.Walk | kernel/kernel.cpp:459-468 | a sequence of names fed to the iterator, through directories and mounts, leaves the stack of names that the sequence spells, or stops at a name that is refused |
| Rootfs.RootfsDit.ThereAndBack | kernel/kernel.cpp:459-468 | as many ".." as descents leave the iterator at the stack of names it came from, whatever mounts the descents went through |
| Rootfs.WalkBack | kernel/fs/templates.hh:63-73 | the sequence of descents and as many ".." spells the stack it starts from |
| Rootfs.MoreMounts | kernel/fs/rootfs.cc:143-150 | later mounts leave every iterator where it is |

## Left out

- Interrupts, several processors, and the lock of the FAT volume: the model is sequential.  As written, `read` takes the lock and `seek` takes it again, so on one thread `read` would wait for itself.
- Orders above 18 of the buddy tree: `1 << (depth + 12)` is an `int` there; the kernel uses 18.
- The recursion `kmmap` - `back_vmem` - `kmmap` for new page tables, and `kpt_repo`: fresh tables are zeroed frames from an abstract supply that never repeats.  CR3, the TLB and the physical window are abstract too.
- Running out of frames inside `back_vmem`: `KernelMap.KmmapKeepsInvariantIff` says exactly when; what the runs do afterwards is not followed.
- PageTablesTheory.CrawlTraced: for the corrected entry form; `CommittedRange.LikeCrawl` carries it over to the committed one.
- PageTablesTheory.CrawlKeeps: the same.
- PageTablesTheory.CrawlOutside: the same.
- MemoryManager.BackMapsRange: the same, with `CommittedBack.CleanBack`.
- MemoryManager.BackKeepsOthers: the same, with `CommittedBack.CleanBack`.
- BackFlags.BackAddsOnly: for the corrected entry form; `BackFlags.EnterInherits` says what the committed one adds.
- PhysicalMapping.PhMemManager.CrawlTables: a range that does not wrap around; a wrapped one makes the code crawl its two end entries.
- PhysicalMapping.PhMemManager.BackVmem: ranges of at least one byte that do not run past the end of the 48-bit space, without the large-page flag, and as committed clean ones.
- PhysicalMapping.PhMemManager.UnbackVmem: ranges whose tables exist, as those of held pages do; elsewhere the code takes fresh tables and releases frame 0 for every page.
- KernelMap.KmmapKeepsInvariant: a hint that does not wrap, enough free frames, and as committed a clean range.
- KernelMap.RunsKeepInvariant: the same of each call, and as committed frees without an aligned pair.
- Kmmap.Kernel.Kmmap: the same; its other outcomes are in `KernelMap.KmmapKeepsInvariantIff`.
- Kmmap.Setup: the boot tables are an argument, in the kernel image or above 4 GiB.
- The rest of a 2 MiB mapping when it is split: the new table starts empty, as in the code, so that mapping is given up.
- KernelMap.HeldPagesResolve: as committed, for runs in which every mapped range is clean and no freed one holds an aligned pair.
- A release of a page past the 64 of a leaf word: the shift count would be out of range in C++; the tree never asks for it, and the model does nothing there.
- `operator new[]` and `operator delete[]`: a length stored in front of a block.
- KernelHeap.Heap.OperatorNew: requires a length that is positive, at most 4016 modulo 4096 and below 2^35; the pages it is granted are an argument here, and `HeapOnMap` takes them from `kmmap`.
- HeapOnMap.Allocator.New: what the new page holds where its bitmap goes is an argument with the spare bits clear; the frames of the request suffice.
- HeapOnMap.Allocator.Delete: as committed, blocks whose pages in front hold no aligned pair.
- `erase`, `erase_fixup` and `clear` of the red-black tree; `erase_fixup` dereferences an absent child when a black node without children is removed.
- Keys other than integers, and copying of maps.  A value that `operator[]` has not initialised is an argument of the model.
- The FAT boot sector parser, `create_file`, directory iteration and long names, and `FAT_file::write`.
- FatVolume.FileSystem.FindFreeCluster: on FAT12 only what the scan does is stated, not a chain property, because it reads other bytes than the entries; the code does not compare the cluster found with the number of clusters, and neither does the model.  The table is assumed to have fewer entries than the bad-cluster mark.
- FatFiles.FilesKeepContents: with the first data sector behind the tables, which is how the constructor derives it.
- FatFile.File.Read: from a state where fields and head agree, as after opening or a seek, or for an empty file, and with position plus size below 2^64.
- FatFile.File.constructor: requires that the first cluster is not 1; `FatFile.Open` covers that case.
- The bitwise OR of parts with disjoint bits in the entry codec is written as a sum.
- `remove_process`, and the topological order of the ready queue, which the code does not keep.
- ReadyQueue.AllQueued: sufficient for several edges, exact for one; with several, a process may be queued although the condition fails, when a second edge leads to it.
- Scheduler.HlSched.AddProcess: the map of pids with the process in it is an argument, and so is the default weight for -1; both are fixed by their contents, not their shape.  The share of a new process is arbitrary, as the code leaves it unset.
- Scheduler.HlSched.AddEdge: the map of edges afterwards is an argument, fixed by its contents; backward edges, which nothing reads, are left out.
- Scheduler.HlSched.RemoveEdge: the same.
- The destructor of the ready queue, which frees the tail of the list more than once: the model empties the queue.
- Scheduler.HlSched.Next: the whole-cycle promise is for a rebuild with weights out of date, for one that keeps the same processes, and for every later pass; `Scheduler.HlSched.StaleShares` says when it holds after other rebuilds.
- Rootfs.RootfsDit.Feed: the answer for a symbolic link (`kernel/fs/rootfs.cc:29-65`); no file system here gives it.
- Rootfs.RootfsDit.FeedTop: the same.
- Symbolic links, `readlink`, `open_file` and `list` of the mount resolver; a file system is a function from names to what is found there.
- The 257th read of the mount table by `mount` when all entries are taken: the model goes straight to the exception.
- Device drivers, boot code, assembly, segment descriptors, ELF loading, system calls, user space, string functions and number printing: plumbing, or easy members only.
