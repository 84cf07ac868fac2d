# NXOS, verified

NXOS is a small multicore kernel in C that ships with a Kconfig engine in Python and a dependency scanner in C.
This project models the parts of it whose correctness rests on an invariant rather than on one statement, and proves
those invariants and what follows from them:

- the **buddy allocator** of physical pages, its free lists, counters and bitmap over one page array;
- the **page cache** and the **small-object heap** that are layered on it;
- the **user address space**, a sorted list of mappings that stands for a map from pages to attributes;
- the **counting semaphore**, the **bounded byte queue** and the **delayed interrupt work**, as steps of any number of
  threads or nested interrupts, in every interleaving;
- the **VFS** node counts and the building of absolute paths;
- the **Kconfig engine**: what the values are, lazily cached values with early-stopping invalidation, dependency
  loops, the printer and the parser of expressions, and the rewriting of the menu tree;
- **fixdep**, which looks for `CONFIG_` names a machine word at a time.

Objects that the program updates in place are classes whose methods carry their whole effect in `ensures`; what is
promised about those effects is proved about the functions and predicates they name. Where the code does not keep what
its comments or names suggest, the model follows the code and the exact condition is proved: a buddy merge past the
highest order, a mapping that surrounds another or passes the top of the space, an automatic placement that meets a
mapping across a border of its area, a VFS node that cannot be made, an unmount under an acquired root, a span freed
twice, a large span reused for a bigger request, an assignable value that no set gives, an interrupt handler that is
re-entered although it is flagged against it, a configuration without choices that loads although its evaluation would
not end, and a cached value that a set leaves stale because a choice default lies outside its choice. For the last one
the condition is exact for one set on any right cache; what a longer run leaves stale also depends on what it has read
before.

`dafny verify dfyconfig.toml` checks everything.

| files | component |
|---|---|
| `bits`, `buddy_zone`, `buddy` | buddy allocator |
| `page_cache`, `page_layer` | page cache, and the page cache over the buddy allocator |
| `heap_sizes`, `heap_cache`, `heap_layer` | size classes, small-object heap, and the heap over page cache and buddy allocator |
| `vmlist`, `vmspace` | user address space |
| `semaphore`, `ioqueue`, `delay_irq`, `delay_reenter` | synchronisation, as steps |
| `vfs_index`, `vfs_mounts`, `vfs_path` | VFS nodes, mounts on directories, and paths |
| `kconfig_rules`, `kconfig_values`, `kconfig_assignable`, `kconfig_deps`, `kconfig_cache`, `kconfig_stale`, `kconfig_loops`, `kconfig_rank`, `kconfig_attributes`, `kconfig_ends`, `kconfig_parser`, `kconfig_menu`, `kconfig_submenus` | Kconfig engine |
| `fixdep` | dependency scanner |
| `sets` | sizes of finite sets |

## Model

| member | source | states |
|---|---|---|
| Bits.NxFls | src/include/base/bitops.h:18-43 | the ladder of shifts finds the position of the highest set bit of every 32-bit word |
| Bits.BuddyFls | src/mm/buddy_common.h:39-52 | the same for every 64-bit size, from its two halves; -1 for zero |
| Bits.RequestOrder | src/mm/buddy.c:260 | the rounded-up order is the smallest whose block holds the pages asked for, for every count |
| Bits.BuddyHalves | src/mm/buddy.c:209-226 | XOR, AND and OR of page numbers give the other half, the lower and the upper half of the enclosing aligned block |
| BuddyZone.FreeBlocksAreMaximalRuns | src/mm/buddy.c:200-233 | in a well-formed zone a block is free exactly when it is a maximal aligned power-of-two run of pages that no allocated block covers |
| BuddyZone.HeadsDisjoint | src/mm/buddy.c:185-198 | blocks named by valid `order` fields never overlap |
| BuddyZone.SplitOnceOk | src/mm/buddy.c:190-196 | one halving keeps the zone tiled into aligned blocks without mergeable free pairs |
| BuddyZone.MergeOnceOk | src/mm/buddy.c:219-228 | one merge keeps the zone tiled and the allocated blocks the same |
| Buddy.ComputeLayout | src/mm/buddy.c:111-134 | header, page records and pages are laid out without overlap inside the given memory; the pages start at the first page boundary behind the header and a map of whole pages, less than a page is left behind the last one, and the overhead is counted exactly |
| Buddy.BuddySystem.constructor | src/mm/buddy.c:101-162 | creation yields a valid system with nothing allocated that manages every whole page behind its map |
| Buddy.BuddySystem.FillFreeLists | src/mm/buddy.c:144-159 | cutting the zone from the left gives a canonical all-free zone whose lists, counts and bitmap agree |
| Buddy.BuddySystem.AddPage | src/mm/buddy.c:21-31 | flag, list, counter and bit change together and keep agreeing |
| Buddy.BuddySystem.DelPage | src/mm/buddy.c:33-44 | taking a page out of the middle of a list keeps flags, lists, counters and bits in agreement |
| Buddy.BuddySystem.LocateFree | src/mm/buddy.c:164-183 | fails exactly when no free block is large enough, else finds one of the least sufficient order |
| Buddy.BuddySystem.PageSplit | src/mm/buddy.c:185-198 | after splitting down, the block has the order asked for, all cut-off halves are listed free and no other block changed |
| Buddy.BuddySystem.PageMerge | src/mm/buddy.c:200-233 | merging ends with a block that has no free buddy of its order, or, exactly when the enclosing run of 2^(MAX+1) pages is otherwise unused, past the highest order |
| Buddy.BuddySystem.AllocPage | src/mm/buddy.c:250-270 | looks past its lists exactly for requests of more than 2^MAX pages; otherwise fails exactly when no aligned run of 2^ceil(log2 count) unallocated pages exists; else adds exactly that block, cut from a smallest sufficient maximal run |
| Buddy.BuddySystem.IncreasePage | src/mm/buddy.c:272-287 | the head of an allocated block gains one reference; any other page of the zone is accepted too and then nothing but its own counter is off; a page inside a block then passes for a counted block of no order |
| Buddy.BuddySystem.PrepareUsed | src/mm/buddy.c:235-248 | handing a free block out sets its counter, whatever it was, so a stray reference on a free block is undone here |
| Buddy.BuddySystem.FreePage | src/mm/buddy.c:295-330 | every outcome told apart; the last reference removes exactly its block, and the result leaves the lists' range exactly when the enclosing top run is otherwise unused |
| Buddy.BuddySystem.FreeSetIsCanonical | src/mm/buddy.c:164-233 | in every valid state the free lists hold exactly the maximal unallocated aligned runs |
| Buddy.SameBlocksSameFreeSet | src/mm/buddy.c:200-233 | systems with equal allocated blocks have equal free sets, whatever their histories |
| Buddy.FreeFully | src/mm/buddy.c:295-330 | freeing a block as often as it is referenced removes it and nothing else, exactly when it does not overrun the lists |
| Buddy.FreeEverything | src/mm/buddy.c:295-330 | freeing everything in any order, each block as often as referenced, goes through exactly when none overruns the lists at its turn, and then restores the free set the zone was created with |
| Buddy.RequestWithinLists | src/mm/buddy.c:164-173 | requests of more than 2^MAX pages are exactly the ones whose order has no list |
| Buddy.MergeCannotStop | src/mm/buddy.c:207-217 | while the enclosing top run is otherwise unused the loop always finds a buddy to absorb |
| Buddy.SmallZonesNeverOverrun | src/mm/buddy.c:207 | in zones of fewer than 2^(MAX+1) pages no merge passes the highest order |
| Buddy.OverrunRun | src/mm/buddy.c:207-231 | a concrete run on a larger zone whose merge does pass it |
| PageCache.MarkingAddsSpan | src/mm/page_cache.c:99-112 | marking pages apart from all spans makes exactly one more span recoverable and disturbs none |
| PageCache.ClearingRemovesSpan | src/mm/page_cache.c:117-131 | clearing forgets exactly one span |
| PageCache.SpansDisjoint | src/mm/page_cache.c:99-161 | exact marks imply that no two spans share a page |
| PageCache.Cache.MarkSpan | src/mm/page_cache.c:99-112 | writes size and place into the pages of the span and no others |
| PageCache.Cache.ClearSpan | src/mm/page_cache.c:117-131 | zeroes the marks of the span and no others |
| PageCache.Cache.PageToSpan | src/mm/page_cache.c:133-146 | any page of a span leads to the base of that span |
| PageCache.Cache.SpanToCount | src/mm/page_cache.c:148-161 | the length of a span, and 0 for pages of no span |
| PageCache.Cache.BestFit | src/mm/page_cache.c:203-215 | the search of the large list ends at a smallest span |
| PageCache.Cache.Alloc | src/mm/page_cache.c:163-246 | hands out one span that was not in use, of exactly the pages asked for below 128; a reused large span is a smallest cached one, and suffices exactly when all cached ones do |
| PageCache.Cache.Free | src/mm/page_cache.c:248-307 | recognises pages of no span; else the span stays cached exactly while its list is below the threshold, and the cache stays in order exactly when the span was in use, which the code does not look at |
| PageLayer.NewBlockApart | src/mm/page_cache.c:183-192 | a block fresh from the buddy allocator shares no page with any span |
| PageLayer.Alloc | src/mm/page_cache.c:163-246 | over the buddy allocator: fails exactly when nothing is cached and no aligned unallocated run is left; a cached span leaves the allocated blocks alone, a fresh one adds exactly its own block, cut from a smallest sufficient run; spans stay backed by blocks of their own |
| PageLayer.Free | src/mm/page_cache.c:248-321 | the blocks given back are exactly those of the spans forgotten; the cache stays in order exactly unless a span was freed twice, the allocator unless its merge overruns |
| HeapSizes.HeapSizeClassInit | src/mm/heap_cache.c:102-129 | the loops fill the 96 entries to the last, without running over, with the classes that double every eight entries |
| HeapSizes.AlignDownToPow2 | src/mm/heap_cache.c:56-64 | the largest power of two within the size |
| HeapSizes.SizeToCache | src/mm/heap_cache.c:131-147 | the smallest class that is large enough |
| HeapSizes.WasteBounded | src/mm/heap_cache.c:102-147 | rounding up to a class costs at most 15 bytes, or less than an eighth of a larger request |
| HeapSizes.SlabHoldsOne | src/mm/heap_cache.c:66-92 | although pages are chosen by the size requested and objects by its class, every slab has room for an object beside its header |
| HeapSizes.SlabFits | src/mm/heap_cache.c:217-243 | the objects a slab is laid out with lie behind its header and within its pages, for every class and number of pages |
| HeapSizes.ObjectsApart | src/mm/heap_cache.c:217-243 | objects of one slab are a class size apart |
| HeapCache.LiveObjectsDisjoint | src/mm/heap_cache.c:164-176 | live objects never overlap, and each lies in its slab, behind the header, as large as requested |
| HeapCache.SlabConservation | src/mm/heap_cache.c:187-243 | free and live objects of a slab always add up to `maxObjects` |
| HeapCache.LastOne | src/mm/heap_cache.c:191-193 | the counter test before giving a slab back holds exactly when the object freed is its last live one |
| HeapCache.Heap.GetFreeSmallCacheSystem | src/mm/heap_cache.c:149-162 | finds a slab of the class with a free object if there is one |
| HeapCache.Heap.BuildSmallCacheSystem | src/mm/heap_cache.c:217-243 | lays out all objects that fit, in order |
| HeapCache.Heap.AllocSpan | src/mm/heap_cache.c:245-268 | a new slab on a span of its own; the span falls short of the slab exactly when a smaller one is cached in the list used |
| HeapCache.Heap.Alloc | src/mm/heap_cache.c:321-395 | a new live object of at least the size requested, from a slab of the class of that size, disjoint from all others; fails or loses the size guarantee exactly in the stated cases |
| HeapCache.SlabIsFull | src/mm/heap_cache.c:217-243 | less than an object place is wasted in front of the first object and less than one behind the last |
| HeapCache.Heap.PutFreeSmallCacheObject | src/mm/heap_cache.c:187-215 | the slab leaves exactly when its last live object is freed and enough slabs are left; else the object joins its free list |
| HeapCache.Heap.Free | src/mm/heap_cache.c:397-455 | finds the slab from the object's page alone; exactly that object stops being live |
| HeapLayer.LiveObjectsInBlocks | src/mm/heap_cache.c:164-268 | through all three layers: every live object lies, as large as requested, within an allocated block of the buddy allocator, and no two overlap |
| HeapLayer.Alloc | src/mm/heap_cache.c:321-395 | the heap over page cache and buddy allocator: no memory exactly when every slab of the class is full, no span is cached and no aligned run of the slab's order is unallocated; the blocks change only when a span had to be asked for, by one new block |
| HeapLayer.Free | src/mm/heap_cache.c:397-455 | exactly the object stops being live; the blocks given back are those of the spans forgotten, and all layers stay valid unless the buddy merge overruns |
| HeapCache.ShortSpanRun | src/mm/heap_cache.c:66-92 | a run in which a cached span of 128 pages is taken for a slab of 256 |
| VmList.ListIsCanonical | src/mm/vmspace.c:217-258 | sorted lists without mergeable neighbours that stand for the same page map are equal |
| VmList.UniformRangeInOneNode | src/mm/vmspace.c:357-373 | in such a list a uniformly mapped range lies inside one node |
| VmList.InsertPaints | src/mm/vmspace.c:117-156 | inserting at its place changes the page map on the new range only |
| VmList.CutOutPaints | src/mm/vmspace.c:260-355 | cutting a range out of a node changes the page map on that range only and keeps the list canonical |
| VmList.JoinKeepsMap | src/mm/vmspace.c:217-258 | joining equal neighbours leaves the page map as it was |
| Vmspace.Space.InsertLinearOrder | src/mm/vmspace.c:117-156 | the new node comes after exactly the nodes that end at or before its start |
| Vmspace.Space.MergeNode | src/mm/vmspace.c:217-258 | no mergeable pair is left around the node, the page map is unchanged |
| Vmspace.Space.SplitNode | src/mm/vmspace.c:260-355 | the node is cut down to the range and its rests become nodes of their own |
| Vmspace.Space.FindNode | src/mm/vmspace.c:357-373 | finds a node that contains the range if there is one |
| Vmspace.EndpointTestMisses | src/mm/vmspace.c:375-396 | for every node and range, overlap is what the endpoint test finds or a node strictly surrounded |
| Vmspace.CollisionTestIsIncomplete | src/mm/vmspace.c:375-396 | a concrete request that passes the test although a page in it is mapped |
| Vmspace.Space.GetAddrFromMapArea | src/mm/vmspace.c:398-437 | gives up exactly when it meets a node of the map area with no room left before it, which means that there is no room at all; else the lowest address free of the area's nodes, with its end within the area exactly when there is room |
| Vmspace.Space.Map | src/mm/vmspace.c:439-547 | every refusal told apart, for a given address and for an automatic placement, which ends in no memory exactly when the search gives up, else in the page of the first fit or a collision there; a success paints exactly the aligned range, and the list stays in order exactly when no node lies strictly inside the request; the range ends below the top of the space exactly when it is not larger than that top, because the test wraps |
| Vmspace.MappedPastTop | src/mm/vmspace.c:455-460 | a concrete run that maps 4 GB in a space of less than 2 |
| Vmspace.PlacedBehindArea | src/mm/vmspace.c:398-437 | a concrete run whose second automatic placement lands behind the map area |
| Vmspace.Space.PlacementCollides | src/mm/vmspace.c:398-487 | in a page-aligned map area with room, an automatic placement fails exactly when a node across a border of the area, which the search passes over, overlaps the place found; it never surrounds a node |
| Vmspace.Space.Unmap | src/mm/vmspace.c:549-606 | refused exactly when the range is not mapped throughout with one label; else exactly that range becomes unmapped |
| Vmspace.Space.UpdateHeap | src/mm/vmspace.c:676-757 | every break inside the heap area succeeds, up or down; pages are mapped exactly up to the break and nothing outside the heap changes |
| Vmspace.OneNodeIffUniform | src/mm/vmspace.c:357-373 | why a shrink always finds its range: one node holds a range exactly when the range has one label throughout |
| Vmspace.HeapUndisturbed | src/mm/vmspace.c:439-606 | mapping and unmapping elsewhere leave the heap in order |
| Semaphore.Sem.WaitRound | src/sched/semaphore.c:41-77 | one locked round: take a unit, or queue at the tail unless queued already |
| Semaphore.Sem.TryWait | src/sched/semaphore.c:79-105 | takes a unit exactly when there is one, never queues |
| Semaphore.Sem.Signal | src/sched/semaphore.c:107-143 | adds one unit and wakes the longest waiting thread if any may be admitted |
| Semaphore.Sem.SignalAll | src/sched/semaphore.c:145-180 | empties the wait list but adds one unit |
| Semaphore.StepKeepsInv | src/sched/semaphore.c:41-180 | each locked section keeps units conserved, the wait list equal to the blocked threads, and enough woken threads on their way |
| Semaphore.UnitsConserved | src/sched/semaphore.c:41-180 | in every run the value is initial plus signals minus completed waits and never negative |
| Semaphore.NoLostWakeup | src/sched/semaphore.c:41-180 | in every run, even with barging, while threads are queued at least `value` woken threads have yet to retry |
| Semaphore.FirstComeFirstWoken | src/sched/semaphore.c:41-180 | in every run no thread is woken past one that has been blocked for longer |
| Semaphore.SignalWakesLongest | src/sched/semaphore.c:107-143 | in every run a signal wakes exactly the thread blocked for longest, unless the count was negative |
| Semaphore.SignalAllWakesAll | src/sched/semaphore.c:145-180 | signalling all wakes every blocked thread, unless the count was negative |
| Semaphore.SignalAllAdmitsOne | src/sched/semaphore.c:145-180 | of all threads woken at value 0 only the first to retry is admitted |
| IoQueue.TakeIsOldest | src/io/ioqueue.c:78-96 | whatever the interleaving, a take reads the oldest unread byte |
| IoQueue.StoreOverwritesNothing | src/io/ioqueue.c:123-138 | a store goes to a slot without an unread byte |
| IoQueue.StepKeepsInv | src/io/ioqueue.c:78-159 | each atomic step of any thread keeps tokens, indexes and buffer in agreement |
| IoQueue.QueueIsFifo | src/io/ioqueue.c:78-159 | in every run the bytes taken are a prefix of the bytes put and at most a buffer's length behind |
| IoQueue.TokensConserved | src/io/ioqueue.c:78-159 | in every run both semaphores and the operations in flight add up to the length |
| IoQueue.QuietQueue | src/io/ioqueue.c:78-159 | at rest the semaphores count the unread bytes and the free slots exactly |
| IoQueue.GoesOn | src/io/ioqueue.c:78-159 | an operation that has begun can go on except while it waits for the mutex |
| IoQueue.NeverStuck | src/io/ioqueue.c:78-159 | in every run, while operations are under way one of them can go on |
| IoQueue.PutAtRest | src/io/ioqueue.c:123-138 | at rest a put is refused exactly when the queue is full, and else appends its byte |
| IoQueue.GetAtRest | src/io/ioqueue.c:78-96 | at rest a get is refused exactly when the queue is empty, and else takes the oldest byte |
| DelayIrq.StepKeepsInv | src/io/delay_irq.c:130-204 | with interrupts nesting at any enabled point, a pending work has its event bit set or is ahead of a running scan |
| DelayIrq.NeverLost | src/io/delay_irq.c:130-204 | in every run, whichever works must not be re-entered, raised work is about to be entered or will still be found |
| DelayIrq.NothingPendingAtRest | src/io/delay_irq.c:176-204 | once the outermost check has returned with a zero event word, no raised work is waiting |
| DelayIrq.CheckReturns | src/io/delay_irq.c:170-204 | a check that nothing interrupts returns, with the event word zero |
| DelayIrq.RaisedWorksRun | src/io/delay_irq.c:130-204 | whatever an interrupt raises while nothing runs is run by the check behind it |
| DelayIrq.RaisedArePending | src/io/delay_irq.c:130-148 | raising makes exactly the works that are on a queue pending |
| DelayReenter.FlaggedInterruptible | src/io/delay_irq.c:148-204 | in every run, the handler of a work flagged NX_IRQ_WORK_NOREENTER runs with interrupts on exactly when no unflagged work has finished before it in the pass, so always when it is the first |
| DelayReenter.FlaggedReentered | src/io/delay_irq.c:148-204 | a concrete run with such a work inside its own handler |
| VfsIndex.NodeIndex.Get | src/fs/vfs.c:238-274 | a new node for a key that has none; its mount counts one node more |
| VfsIndex.NodeIndex.Lookup | src/fs/vfs.c:276-300 | finds the one node of a mount and path, with one reference more, exactly if it exists |
| VfsIndex.NodeIndex.Put | src/fs/vfs.c:307-329 | one reference less; the last one takes the node off the list and off its mount's count, for which the mount must still be there |
| VfsIndex.NodeIndex.Release | src/fs/vfs.c:416-466 | exactly the node and its ancestors lose one reference each |
| VfsIndex.NodeIndex.Acquire | src/fs/vfs.c:468-540 | the outcome is determined by the first component without a node that is refused; success references exactly the component prefixes, a refusal nothing, a failed allocation leaves the references short of its parent |
| VfsIndex.OutcomeMeaning | src/fs/vfs.c:487-537 | that outcome in terms of the components: acquired exactly when none stops the walk, else the first that does and whether memory or the file system stopped it |
| VfsIndex.FailureRestores | src/fs/vfs.c:517-533 | a failed acquisition restores every count if and only if it was not an allocation failing below the first component |
| VfsIndex.AddedThenRemoved | src/fs/vfs.c:416-540 | acquiring and releasing a path restores every count and so the set of nodes |
| VfsIndex.StepKeepsBalance | src/fs/vfs.c:238-819 | each mount, unmount, acquisition and release keeps every count equal to the acquisitions that have the node's path as component prefix, plus one for the root of a mount in use |
| VfsIndex.RunKeepsBalance | src/fs/vfs.c:238-819 | the same in every run from boot; releases happen on mounts in use only |
| VfsIndex.KeptWhileCovered | src/fs/vfs.c:307-329 | a node exists exactly while something at or below its path is acquired |
| VfsIndex.HeldCanBeReleased | src/fs/vfs.c:416-466 | in balanced states every acquisition on a mount in use can be released: its node and its root are there, and the root outlives the release |
| VfsIndex.StepKeepsReleasable | src/fs/vfs.c:767-819 | a step keeps all acquisitions releasable if and only if it is not an unmount that passes the busy test while the root is acquired, after which a release would read the freed mount |
| VfsIndex.RunKeepsReleasable | src/fs/vfs.c:416-819 | in runs without such an unmount everything acquired can be released at any time |
| VfsIndex.StrandedStays | src/fs/vfs.c:428-466 | an acquisition that has lost its mount is never given back |
| VfsIndex.NodeIndex.Mount | src/fs/vfs.c:637-765 | a failed mount leaves nothing behind, a successful one its root |
| VfsIndex.NodeIndex.Unmount | src/fs/vfs.c:767-819 | busy exactly while a node other than the root exists; else the root loses the mount's reference and the mount is freed, its root and its count with it |
| VfsIndex.BusyWhileAcquired | src/fs/vfs.c:794-798 | in balanced states, busy exactly while a path other than the root is acquired |
| VfsIndex.UnmountedClean | src/fs/vfs.c:767-819 | an unmount leaves no node of the mount if and only if the root is not acquired either, which the busy test does not look at |
| VfsMounts.Mounts.MountOn | src/fs/vfs.c:637-765 | a mount on a directory takes one acquisition of it below and its own root; it succeeds exactly when each part does, and a failure after the acquisition restores every count |
| VfsMounts.Mounts.Unmount | src/fs/vfs.c:767-819 | unless busy, the mount's root and then the covered directory lose their references and both are forgotten |
| VfsMounts.CoveredIsBusy | src/fs/vfs.c:789-817 | in every state whose acquisitions are the users' and the covers', the mount below a covered directory is in use and busy |
| VfsMounts.StepKeepsTree | src/fs/vfs.c:416-819 | every acquisition, release, mount on a directory and unmount keeps such states |
| VfsMounts.CoveredStaysMounted | src/fs/vfs.c:637-819 | in every run from boot a mount stays while another one covers a directory of it |
| VfsPath.BuildAbsPath | src/fs/vfs.c:543-635 | for every path: succeeds exactly when the text fits throughout, and then gives the rendering of what the path means; ends although `leftLen` does not drop on empty components |
| VfsPath.NeutralAnywhere | src/fs/vfs.c:607-610 | empty components and "." change nothing, wherever they stand |
| VfsPath.ParentAnywhere | src/fs/vfs.c:596-627 | a plain component is added at the end, and one followed by ".." changes nothing, wherever they stand |
| VfsPath.Continued | src/fs/vfs.c:575-635 | a path with more behind a separator means the further components applied to what the path means |
| VfsPath.TextMeaning | src/fs/vfs.c:575-635 | in texts: a trailing separator, "/.", doubled separators and a component followed by "/.." leave the meaning of a path as it is |
| VfsPath.JoinedSplit | src/fs/vfs.c:585-595 | the components of a text hold no separator and joined by separators give the text again |
| VfsPath.BuildableExactly | src/fs/vfs.c:575-635 | building succeeds exactly when every text written on the way is shorter than the buffer |
| VfsPath.AppendToken | src/fs/vfs.c:596-627 | what one component does to the buffer is what it does to the list of components |
| VfsPath.BuildTwice | src/fs/vfs.c:543-635 | building is idempotent, whatever the working directory |
| VfsPath.BuiltShape | src/fs/vfs.c:543-635 | a built path is absolute, without empty, "." or ".." components and without a trailing separator except for the root |
| VfsPath.RenderIsInjective | src/fs/vfs.c:285-292 | equal texts of clean paths mean equal components, so nodes may be keyed by either |
| VfsPath.ParentOf | src/fs/vfs.c:442-449 | cutting at the last separator drops exactly the last component |
| VfsPath.ParentUndoes | src/fs/vfs.c:610-620 | ".." undoes any plain component and does nothing at the root |
| KconfigCache.Kconfig.GetValue | scripts/kconfiglib/kconfiglib.py:4428-4505 | in ranked configurations a value read, cached or not, is the from-scratch value on the current user values, and reading ends |
| KconfigValues.World.SymbolVisibility | scripts/kconfiglib/kconfiglib.py:6286-6313 | a symbol is visible at the greatest of its prompt conditions, with the exceptions of choice members; m counts as y unless its type is tristate |
| KconfigValues.World.ChoiceVisibility | scripts/kconfiglib/kconfiglib.py:6286-6313 | the same for a choice |
| KconfigValues.World.UserValueCut | scripts/kconfiglib/kconfiglib.py:4453-4491 | a visible symbol outside choices that the user has set is the lesser of that and its visibility, raised by selects; m is y for bool symbols and those implied to y |
| KconfigValues.World.DefaultUsed | scripts/kconfiglib/kconfiglib.py:4460-4491 | any other is its first default with a true condition, cut to the condition, raised by an imply exactly while the direct dependency holds, then by selects |
| KconfigValues.World.SelectedAtLeast | scripts/kconfiglib/kconfiglib.py:4479-4486 | no symbol is below what selects it |
| KconfigValues.World.MemberValue | scripts/kconfiglib/kconfiglib.py:4494-4502 | a choice member visible at y is y exactly if it is selected, at m it is m exactly if the user has set it, else n |
| KconfigValues.World.OtherValue | scripts/kconfiglib/kconfiglib.py:4436-4445 | symbols that are neither bool nor tristate are n |
| KconfigValues.World.ModeBetween | scripts/kconfiglib/kconfiglib.py:5190-5207 | the mode of a choice is between its least mode and its visibility, and what the user asked for where that is possible |
| KconfigValues.World.SelectionOf | scripts/kconfiglib/kconfiglib.py:5424-5453 | in y mode the selection is the user's if visible, else the first default that holds and is visible, else the first visible member |
| KconfigValues.World.OneMember | scripts/kconfiglib/kconfiglib.py:4494-4502 | at most one member of a choice is y; in y mode a member is y exactly if it is visible and selected |
| KconfigAssignable.AssignableExactly | scripts/kconfiglib/kconfiglib.py:4813-4857 | the assignable values of a visible symbol outside choices are those that setting it gives, if and only if it is not visible at m, selected to m and implied to y at once; then m is listed and every set gives y |
| KconfigAssignable.ValueAfterSet | scripts/kconfiglib/kconfiglib.py:4558-4645 | what a set value turns into, with all other inputs of the value as before the set |
| KconfigAssignable.ModesAssignable | scripts/kconfiglib/kconfiglib.py:5405-5422 | the assignable modes of a choice are those from its least mode to its visibility, without m for bool choices, and a mode among them is the mode once the user has set it |
| KconfigCache.Kconfig.EvalTerm | scripts/kconfiglib/kconfiglib.py:5988-6042 | evaluation reads a dynamic subset of the dependencies, caches what it reads and disturbs nothing cached |
| KconfigCache.Kconfig.RecInvalidate | scripts/kconfiglib/kconfiglib.py:4865-4894 | drops exactly what is led to through items with cached visibility, which is everything that could depend on the item; ends although choices make the dependency graph cyclic |
| KconfigCache.Kconfig.SetValue | scripts/kconfiglib/kconfiglib.py:4558-4645 | accepts exactly the values of its type, changes exactly the user values of the symbol and of its choice, drops exactly what invalidation finds, and leaves all cached values right |
| KconfigCache.Kconfig.UnsetValue | scripts/kconfiglib/kconfiglib.py:4647-4660 | removes exactly the user value and leaves all cached values right |
| KconfigCache.Kconfig.SetChoiceValue | scripts/kconfiglib/kconfiglib.py:5244-5283 | the same for the mode of a choice |
| KconfigCache.Kconfig.UnsetChoice | scripts/kconfiglib/kconfiglib.py:5285-5296 | the same for mode and selection |
| KconfigCache.Kconfig.Coherent | scripts/kconfiglib/kconfiglib.py:4428-4505 | in every valid state every cached value equals from-scratch evaluation |
| KconfigCache.CachedIsFresh | scripts/kconfiglib/kconfiglib.py:4428-4505 | replaying each rule on the cached values it read is enough for coherence |
| KconfigCache.InvalidationKeepsOk | scripts/kconfiglib/kconfiglib.py:4865-4894 | dropping a set closed under dependents with cached visibility is enough for any change of user values inside it |
| KconfigCache.PromptlessKeepsOk | scripts/kconfiglib/kconfiglib.py:4896-4905 | user values of symbols without a prompt change no value, so skipping the invalidation is right |
| KconfigCache.RuleReadsVisibility | scripts/kconfiglib/kconfiglib.py:4865-4894 | every non-constant cached attribute has the visibility of its own item cached, which is what justifies the early stop |
| KconfigDeps.PropagateDeps | scripts/kconfiglib/kconfiglib.py:3637-3687 | the loop over the child nodes guards each dependency, prompt and default by the parent's dependency |
| KconfigDeps.PropagatedValues | scripts/kconfiglib/kconfiglib.py:3637-3687 | in values: dependency and default conditions are limited by the parent's dependency, the prompt by that and by `visible if`, and nothing else changes |
| KconfigDeps.DependsByConjunct | scripts/kconfiglib/kconfiglib.py:6439-6464 | an expression counts as depending on a symbol exactly if one of its conjuncts requires the symbol or forbids it to be y |
| KconfigDeps.RequiredIsHidden | scripts/kconfiglib/kconfiglib.py:6467-6473 | in the first case the node is hidden while the symbol is n |
| KconfigDeps.ForbiddenIsShown | scripts/kconfiglib/kconfiglib.py:6454-6457 | in the second it is hidden exactly while the symbol is y |
| KconfigDeps.MembersAreLinked | scripts/kconfiglib/kconfiglib.py:3637-3702 | a symbol all of whose definitions are in its choice comes to mention the choice or can never be prompted for, which is what invalidation relies on |
| KconfigDeps.OutsideDefinition | scripts/kconfiglib/kconfiglib.py:3689-3702 | a member defined outside its choice as well may lose all mention of it, as `||` with y is simplified to y |
| KconfigRules.RulesCovered | scripts/kconfiglib/kconfiglib.py:3466-3539 | every value an evaluation can read is found through the recorded dependents |
| KconfigCache.ReadSetRead | scripts/kconfiglib/kconfiglib.py:4558-4905 | a run of the engine on any ranked configuration: what setting a symbol does not lead to is read as before, which is right exactly when its from-scratch value is unchanged |
| KconfigCache.DecidedSelection | scripts/kconfiglib/kconfiglib.py:5423-5453 | the first default with a true condition and a visible symbol is the from-scratch selection of a choice in y mode without a user selection |
| KconfigCache.OutsideDefaultGoesStale | scripts/kconfiglib/kconfiglib.py:5440-5453 | a run of the engine: a choice default outside its choice, invisible before and deciding once a symbol that does not lead to the choice is set, leaves a stale selection behind |
| KconfigCache.OutsideDefaultRun | scripts/kconfiglib/kconfiglib.py:5440-5453 | such a run on a concrete configuration |
| KconfigStale.InvalidationExact | scripts/kconfiglib/kconfiglib.py:4865-4894 | for every ranked configuration and every change of user values: invalidating an item makes every right cache right again exactly when each attribute keeps its value or is found along what its own evaluation has read |
| KconfigStale.ReadCacheOk | scripts/kconfiglib/kconfiglib.py:4428-4505 | what one evaluation reads is a right cache by itself |
| KconfigStale.ReadsAreCached | scripts/kconfiglib/kconfiglib.py:4428-4505 | and every right cache that has the attribute contains it |
| KconfigStale.LedToAndStale | scripts/kconfiglib/kconfiglib.py:4865-4894 | a run of the engine on a concrete configuration: the symbol set leads to the choice, but by way of an item nothing has read, and a stale selection is left behind |
| KconfigLoops.LoopCheck.CheckSym | scripts/kconfiglib/kconfiglib.py:6559-6631 | what one call of the search brings back: a finished symbol, a loop under collection, or a whole loop |
| KconfigLoops.LoopCheck.CheckAll | scripts/kconfiglib/kconfiglib.py:1114-1126 | loading raises exactly when the dependents graph has a cycle; else every symbol is finished and the marks give a topological order |
| KconfigLoops.OrderedHasNoCycle | scripts/kconfiglib/kconfiglib.py:6559-6631 | such an order rules cycles out |
| KconfigRank.RankIffOrder | scripts/kconfiglib/kconfiglib.py:4274-4283 | values can be evaluated in some order exactly when the recorded dependents, together with edges from MODULES to every tristate symbol, have a topological order; the type property goes along those edges although nothing records them |
| KconfigRank.CheckReads | scripts/kconfiglib/kconfiglib.py:6559-6631 | the code's own search for loops, on that larger graph, decides this and yields the ranks |
| KconfigRank.LoadedRank | scripts/kconfiglib/kconfiglib.py:3466-3539 | a configuration of bool and tristate symbols that has passed the code's check has one order of evaluation for all user values exactly when MODULES is not a tristate and does not depend on one |
| KconfigEnds.ModulesEnds | scripts/kconfiglib/kconfiglib.py:4274-4283 | in a loaded configuration MODULES has a value, for given user values, exactly when evaluating it along the recorded dependencies never comes to ask for its value again |
| KconfigEnds.AttributeEnds | scripts/kconfiglib/kconfiglib.py:4428-4505 | any other attribute has a value exactly when MODULES has one or the attribute does not come to ask for it |
| KconfigEnds.AllEnd | scripts/kconfiglib/kconfiglib.py:4428-4505 | so everything can be evaluated exactly when MODULES can |
| KconfigEnds.ModulesNeverEnds | scripts/kconfiglib/kconfiglib.py:4274-4283 | a MODULES that asks for itself has no value after any number of nested reads |
| KconfigEnds.Load | scripts/kconfiglib/kconfiglib.py:1114-1126 | loading raises exactly on a cycle of recorded dependents; trying MODULES once then decides whether evaluation ends on given user values |
| KconfigEnds.QuietModulesEnds | scripts/kconfiglib/kconfiglib.py:4274-4283 | a concrete configuration that has no order of evaluation and is evaluated throughout, whatever the user values |
| KconfigAttributes.RankIffOrdered | scripts/kconfiglib/kconfiglib.py:4428-4505 | for every configuration, choices included: an order of evaluation exists exactly when the graph of what each cached attribute may read has a topological order |
| KconfigAttributes.CheckAttributes | scripts/kconfiglib/kconfiglib.py:6559-6631 | the search for loops on that graph decides this, and returns the ranks or a cycle of reads |
| KconfigAttributes.ChoicesCanBeRanked | scripts/kconfiglib/kconfiglib.py:5423-5453 | a concrete choice with two members that meets all conditions of coherence |
| KconfigRank.Start | scripts/kconfiglib/kconfiglib.py:1114-1126 | the engine starts valid on every such configuration, with ranks taken from the order found |
| KconfigRank.EvaluationEnds | scripts/kconfiglib/kconfiglib.py:4428-4505 | recursive evaluation without a cache ends within as many nested reads as the rank, in the from-scratch value |
| KconfigRank.ModulesLoopLoads | scripts/kconfiglib/kconfiglib.py:6559-6631 | a concrete configuration, MODULES prompted on a tristate, that passes the check although no order of evaluation exists |
| KconfigEnds.ModulesLoopDiverges | scripts/kconfiglib/kconfiglib.py:4274-4283 | with the tristate set to m, neither symbol has a value after any number of nested reads |
| KconfigLoops.LoopGrows | scripts/kconfiglib/kconfiglib.py:6668-6676 | collecting symbols backwards reports a real cycle |
| KconfigParser.RoundTrip | scripts/kconfiglib/kconfiglib.py:3376-3460 | parsing a printed expression consumes exactly the printed tokens and gives the same tree with chains of and and of or grouped to the right |
| KconfigParser.RoundTripKeepsValue | scripts/kconfiglib/kconfiglib.py:6060-6101 | so it has the same value under every assignment |
| KconfigParser.RightAssocKeepsValue | scripts/kconfiglib/kconfiglib.py:5988-6042 | regrouping chains of and and of or never changes a tristate value |
| KconfigParser.RegroupedPrintsTheSame | scripts/kconfiglib/kconfiglib.py:6335-6340 | the regrouped tree prints as before, so a second round trip changes nothing |
| KconfigParser.ParenthesesOnlyWhereMixed | scripts/kconfiglib/kconfiglib.py:6060-6101 | parentheses are printed exactly for && and || under each other and for anything but a symbol under ! |
| KconfigParser.ConnectivesAreMinMax | scripts/kconfiglib/kconfiglib.py:5988-6020 | && is the lesser value, || the greater, ! the complement |
| KconfigParser.Parser.ParseExpr | scripts/kconfiglib/kconfiglib.py:3376-3415 | the parser over a token index computes the parsing function on the tokens left, for every token list, ill-formed ones included; ParsesExactly says what that is |
| KconfigParser.ParsesExactly | scripts/kconfiglib/kconfiglib.py:3385-3415 | against the grammar: a prefix of the tokens is taken and a tree returned exactly when the grammar derives the tree from the prefix and what follows cannot belong to it |
| KconfigParser.WholeParse | scripts/kconfiglib/kconfiglib.py:3385-3415 | a whole line is parsed to a tree exactly when the grammar derives it |
| KconfigParser.Parser.ExpectExprAndEol | scripts/kconfiglib/kconfiglib.py:2579-2585 | the method for whole lines gives the tree that the grammar derives, or none if there is none |
| KconfigParser.Parser.ParseFactor | scripts/kconfiglib/kconfiglib.py:3426-3460 | the same for negation, parentheses and relations |
| KconfigMenu.MenuTree.Flatten | scripts/kconfiglib/kconfiglib.py:6476-6502 | the loop over the links turns the linked list into the flattened tree: children of promptless nodes come after them, with the right parents, and no other link changes |
| KconfigMenu.MenuTree.RemoveIfs | scripts/kconfiglib/kconfiglib.py:6505-6528 | unlinks exactly the `if` nodes of one level |
| KconfigMenu.MenuTree.GatherSubmenu | scripts/kconfiglib/kconfiglib.py:3581-3601 | the nodes that depend on a symbol right after it become its children, finalised and in order, implicit submenus inside them included |
| KconfigMenu.MenuTree.FinalizeNode | scripts/kconfiglib/kconfiglib.py:3556-3624 | the recursive link surgery computes the finalised tree: afterwards every list, next and parent link is that tree's, and ids outside it are untouched |
| KconfigSubmenus.FinalizeMenu | scripts/kconfiglib/kconfiglib.py:3556-3624 | after loading, every node is linked to the parent that a single pass over the nodes as parsed gives it, which keeps a stack of open implicit submenus; the walk still yields definition order |
| KconfigSubmenus.FinalizePlaces | scripts/kconfiglib/kconfiglib.py:3576-3601 | finalising one node places it and its submenu as that pass does |
| KconfigSubmenus.SubmenuOfSymbol | scripts/kconfiglib/kconfiglib.py:3581-3601 | of the nodes after a symbol with a prompt, while all depend on it, one that depends on none in between is its child exactly if it depends on the symbol, and else its sibling |
| KconfigSubmenus.RunOfSymbol | scripts/kconfiglib/kconfiglib.py:3585-3601 | the same below a symbol that is itself in a submenu or has no prompt |
| KconfigSubmenus.ParentsAreShown | scripts/kconfiglib/kconfiglib.py:6476-6502 | only nodes with a prompt and choices end up with children |
| KconfigSubmenus.ChildrenOfMenu | scripts/kconfiglib/kconfiglib.py:3603-3624 | a menu or choice keeps the children that depend on none before them, an `if` hands them to its own parent |
| KconfigMenu.FinalizeKeeps | scripts/kconfiglib/kconfiglib.py:3556-3624 | finalising keeps the definition order of all nodes but `if` nodes and leaves no `if` node at any depth |
| KconfigMenu.FinalizeProper | scripts/kconfiglib/kconfiglib.py:3556-3624 | no node comes to be linked twice |
| KconfigMenu.MenuTree.NodeIter | scripts/kconfiglib/kconfiglib.py:1930-1956 | the walk over child, next and parent links yields the preorder of the tree and ends |
| KconfigMenu.MenuTree.FinalizedOrder | scripts/kconfiglib/kconfiglib.py:1907-1925 | after finalisation the walk yields exactly the nodes as parsed, `if` nodes left out, in definition order |
| Fixdep.Scanner.ParseConfigFile | scripts/xbuild/fixdep.c:286-317 | looking only at aligned words finds exactly the names that a search of every offset but the first finds, in the same order |
| Fixdep.WordDecides | scripts/xbuild/fixdep.c:293-299 | of the occurrences that reach a word, the word itself picks the only one possible |
| Fixdep.ScanMeaning | scripts/xbuild/fixdep.c:286-317 | a name is reported exactly when some occurrence past the first offset ends before the text does in it, and never twice |
| Fixdep.StripMeaning | scripts/xbuild/fixdep.c:310-315 | the suffix test strips exactly a trailing _MODULE and drops the name MODULE itself, although it may look back into CONFIG_ |
| Fixdep.FirstOffsetMissed | scripts/xbuild/fixdep.c:289-290 | a name at the very start of a file is missed |
| Fixdep.Scanner.IsDefined | scripts/xbuild/fixdep.c:220-230 | the chain of one bucket tells whether a name was used, whatever names share the bucket or the hash |
| Fixdep.Scanner.Use | scripts/xbuild/fixdep.c:270-284 | a line is printed for a name exactly once |
| Fixdep.SameLine | scripts/xbuild/fixdep.c:270-284 | two names give the same line exactly when they differ in case at most |

## Where code and comments differ

- src/mm/heap_cache.c:27-34 announces 128 pages for the largest small classes; the code takes 256 (src/mm/heap_cache.c:86), and so does the model.
- src/mm/page_cache.c:199 calls the search of the large list best fit; it takes the smallest span without looking at the request.
- scripts/kconfiglib/kconfiglib.py:6448-6457 lists `sym = m/y` and `sym != n`; by the precedence of `and` over `or` the code lets `sym != y` through as well.
- scripts/kconfiglib/kconfiglib.py:4845-4857 says m is assignable for a symbol visible at m and selected to m, although an imply to y makes it y.
- NX_SemaphoreSignalAll wakes every thread but adds one unit (src/sched/semaphore.c:162).
- scripts/xbuild/fixdep.c:289 starts one word in so as never to look before the map, and therefore misses a name at offset 0.

## Left out

- Buddy.BuddySystem.FreePage: the code's own assertions (a page address; a reference to drop) are preconditions, since with them compiled out the code has no meaning there.
- Buddy.BuddySystem.AllocPage: counts of 2^62 pages or more, whose rounding up would wrap; what the read past the lists yields.
- Buddy.BuddySystem.IncreasePage: what a later free of a page inside a block, let through by the stray reference, does to the zone is not modelled.
- The bitmap of the buddy allocator is the set of its bits, its find-first-set is modelled by contract; the reference fields and the page flags are taken as zero at creation, where the code sets the orders only and leaves the rest to the memory it is given.
- PageCache.Cache.Free: pages past the end of the zone, which the code does not test for, are excluded; after a double free the cache is not followed further.
- PageLayer.Free: excludes pages past the zone.
- HeapCache.Heap.AllocSpan: stops where the span is shorter than the slab; the code lays the slab out over the pages that follow.
- HeapCache.Heap.Alloc: stops where a span shorter than its slab has been taken; what the code then does to the pages behind it is not modelled.
- HeapCache.Heap.Free: for live small objects; freeing an address that is no live object is excluded.
- HeapLayer.Alloc: inherits both limits of the heap.
- The contents of pages and objects; zeroing them is not modelled.
- Middle-size and direct heap objects: the code does not keep the intended size relation there.
- Vmspace.Space.Map: but for the test against the top of the space, addresses are unbounded numbers, so the overflow of `addr + size` is not modelled; the record of the new mapping is always allocated.
- Failures of the page tables, and the rollback when memory runs out while mapping: page-table calls are taken as succeeding.
- NX_VmspaceRead and NX_VmspaceWrite, which look at physical memory.
- Semaphore: a thread woken from elsewhere than its semaphore; atomicity of the locked sections is assumed, so the lock itself is not modelled.
- IoQueue: a try operation that finds its semaphore exhausted is a step not taken.
- DelayIrq: works leave a queue only while no check runs and they are not pending.
- Locks in general: a section under a lock is one atomic step.
- VfsIndex.NodeIndex.Acquire: takes the components of a path; the text is VfsPath. What memory and the file system answer is a parameter.
- VfsIndex.NodeIndex.Mount: a mount on "/"; VfsMounts.Mounts.MountOn adds the covered directory.
- VfsIndex.NodeIndex.Unmount: without the covered directory, which VfsMounts.Mounts.Unmount adds; a freed mount's address is not given to a new mount while a node still names it.
- VfsIndex.StepKeepsBalance: releases on a freed mount, which would read its memory, are not steps.
- Hash buckets of the node index: one list stands for all of them.
- Finding the mount of a path, the list of mounts, open files, reading and writing.
- KconfigCache.Kconfig.GetValue: bool and tristate symbols and choices; string, int and hex values are not modelled.
- KconfigCache.Kconfig.Coherent: for ranked configurations, which KconfigAttributes decides; a configuration without a rank may still be evaluated on some or all user values, as KconfigEnds shows when there are no choices.
- KconfigCache.Kconfig.SetValue: keeps values right in configurations whose choice members mention their choice or have no prompt, as they do when they are defined in it only (KconfigDeps), and whose choice defaults the choice mentions, as it does its members; the code only warns about the others.
- KconfigRules.RulesCovered: under the same two conditions, which are sufficient; KconfigStale.InvalidationExact has the exact condition for a single set.
- KconfigCache.OutsideDefaultGoesStale: gives one family of stale runs, not all of them.
- KconfigStale.InvalidationExact: for one set on a right cache; a cache that has kept a value without what it was computed from is right by chance only and not covered.
- KconfigRank.LoadedRank: when there are also string, int or hex symbols, only that the condition suffices; their own values are not modelled. That loading a configuration with choices gives a rank is not proved.
- KconfigEnds.AllEnd: for configurations without choices.
- KconfigLoops.LoopCheck.CheckSym: without the branch that enters the choice of a symbol.
- KconfigLoops.LoopCheck.CheckAll: for configurations without choices.
- KconfigLoops.OrderedHasNoCycle: says nothing about evaluation, which also goes along unrecorded edges.
- KconfigParser.RoundTrip: on tokens, without choices and without the rewriting of m; characters, quoting and escapes are not modelled.
- KconfigMenu.MenuTree.FinalizeNode: the conditions that finalisation adds to dependencies and prompts are in KconfigDeps, not in the tree; which node depends on which symbol is a given relation, which KconfigDeps.AutoMenuDep gives for expressions. Nodes are numbers with three link fields rather than objects.
- KconfigDeps.PropagateDeps: ranges, selects and implies, and nodes that are no symbols; the child nodes of a level are an array.
- KconfigMenu.MenuTree.NodeIter: without the option that leaves out repeated symbols.
- Reading Kconfig files, preprocessing, warnings, menus on screen, and writing configurations.
- Fixdep.Scanner.Use: characters are ASCII; the contents of files and the mapping of them into memory are given.
- The scheduler, idle and daemon threads, ELF loading, processes, context switches, drivers, block devices and file-system callbacks.
