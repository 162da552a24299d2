# A verified model of the C++ kernel's core

This project models the parts of the C++ kernel whose correctness is a property of whole
runs rather than of single functions, and proves those properties in Dafny:

- the heap allocator, first as a state machine on values (`HeapModel`, `FreeTree`), then over byte
  memory with the tree links inside the block headers (`HeapHeaders`, `Memory`, `Heap`);
- the frame bitmap with its search hint (`Bits`, `FrameBits`), the two-level page tables
  (`PagingModel`, `Paging`), static memory against the frames given out (`StaticMemory`,
  `Outgrown`), and the heap and paging running together (`HeapPages`);
- the hand-off mutex as a protocol of micro-steps (`MutexProtocol`), its wait queue (`Waitlist`), the
  kernel's list with its node cache (`List`), and the round-robin scheduler (`SchedulerModel`,
  `Scheduler`);
- ClothesFS: the on-disk free chain (`ClothesModel`), the blocks it hands out (`ClothesBlocks`), the tree of files that the blocks spell out
  (`ClothesTree`), and the code that edits the blocks through byte buffers (`ClothesFS`);
- the ustar reader (`UstarModel`, `Ustar`), both file systems over one block device (`Device`);
- shift-subtract division (`Division`) and the emulator's carry-chain flags (`Flags`).

Every part has the same shape: a definition of what the operation means on values, lemmas about
all runs of those operations, and, where the source updates state in place, a class whose methods
carry the source's loops and are proved equal to the value-level operation. `Bytes` holds the
little-endian encoding shared by the heap headers and the file systems, `Basics` optional values and
32-bit arithmetic.

Where the code does not do what it is for, the model follows the code, a lemma gives a concrete
failing case, and the exact condition under which the property holds is proved:

- an allocation keeps the heap sound if and only if the 32-bit bump test did not wrap and no page
  failure follows the release of the tail (`HeapModel.AllocInvIff`, `HeapModel.PageFailureHazard`,
  `HeapModel.WrapHazard`);
- releasing a tree node drops the strict descendants of each child that is re-added; the loss is
  accounted for exactly (`FreeTree.ReleaseExact`, `FreeTree.ReleaseLoses`);
- realloc of a freed block to its own size returns the freed block, and in no other case a block that
  is not in use (`HeapModel.ReallocAnswer`, `HeapModel.FreedPointerReused`); a freed pointer is refused
  again only until some call returns it (`HeapModel.DoubleFree`);
- static allocation, page tables included, does not ask the bitmap and can hand out a frame that map
  or getPage gave out; a step keeps the two apart if and only if, before it, the static memory it is
  about to take holds no such frame, and a run does while static memory has not outgrown what init set
  aside for it (`StaticMemory.StepApartIff`, `StaticMemory.RunReserved`, `Outgrown.StaticCollides`);
- the bitmap search answers only bits in use for counts that are 0 or 31 modulo 32, and otherwise a
  full bitmap makes it repeat a padding bit for ever (`Bits.SafeCountInside`,
  `Bits.UnsafeCountRepeats`, `Bits.PaddingOffered`, `Bits.OneBitRepeats`);
- a running task at the head of the list is never replaced, even when it is blocked
  (`SchedulerModel.CapturedForever`, `SchedulerModel.BlockedKeepsRunning`); letting a parked task run
  on breaks mutual exclusion if and only if it was not given the mutex (`MutexProtocol.SpuriousResume`,
  `MutexProtocol.TwoOwners`), and the protocol as a whole if and only if the task is still BLOCKED
  (`MutexProtocol.ResumeSoundIff`); and a task preempted between blocking itself and releasing the
  spinlock holds up its mutex for as long as it does not run, and no longer
  (`MutexProtocol.PreemptedWaiter`, `MutexProtocol.WaiterReleases`, `MutexProtocol.WaiterReached`);
- `List::addAt` keeps the tail pointer right if and only if the position is below the size or the list
  is empty (`List.List.AddAt`, `List.TailLost`);
- the first entry of an object overwrites its length word if and only if its name is empty
  (`ClothesTree.LengthOverwrittenIff`, `ClothesTree.EmptyNameOverwritten`), and a name leaves the link word of its block alone if and only
  if it has at most 492 bytes (`ClothesTree.LinkSurvives`);
- reading a file returns its contents up to its first data block, and behind that the same bytes again, and
  listing goes on behind a full block with the continuation's header word instead of its first entry
  (`ClothesTree.ReadAnswer`, `ClothesTree.ContinuationMisread`);
- the ustar walk is right on every entry that ends below 4 GiB, and otherwise exactly when no header
  lies at the wrapped position (`UstarModel.NextExactIff`, `UstarModel.WrapHazard`);
- `my__divdi3` is truncated division except for the one quotient that does not fit, and `my__moddi3` is
  the remainder if and only if the divisor is positive or divides evenly (`Division.Div`,
  `Division.Mod`, `Division.MinimumQuotient`, `Division.NegativeDivisor`).

## Model

| member | source | states |
|---|---|---|
| `FreeTree.InsertKeeps` | src/mm.cpp:173-239 | adding a block keeps the free tree free of sharing and ordered: smaller sizes left, not smaller ones right |
| `FreeTree.InsertHolds` | src/mm.cpp:173-239 | treeAdd adds exactly the given block under its size and loses none |
| `FreeTree.SearchExact` | src/mm.cpp:302-338 | despite its side branches, findAvail's walk finds a block if and only if the tree holds one of exactly the requested size, and what it finds has that size |
| `FreeTree.SearchParent` | src/mm.cpp:302-338 | the parent reported with a found block is its parent in the tree |
| `FreeTree.ReleaseExact` | src/mm.cpp:241-300 | releasing p leaves an ordered tree of exactly the old blocks minus p and minus the strict descendants of each re-added child, sizes unchanged |
| `FreeTree.ReleaseLoses` | src/mm.cpp:256-271 | a tree of four blocks from which releasing the root loses the block of size 5 |
| `FreeTree.InsertLinks` | src/mm.cpp:186-238 | writing the one link at the insertion point turns headers that spell the tree into headers that spell the tree with the block |
| `FreeTree.DetachLinks` | src/mm.cpp:272-288 | clearing the parent's link leaves headers that spell the tree without the released subtree |
| `HeapModel.AllocInvIff` | src/mm.cpp:340-438 | an allocation keeps all extents disjoint, inside obtained pages and apart from the bump region if and only if the bump test did not pass by wrap-around and no page failure follows the release of the tail |
| `HeapModel.AllocTarget` | src/mm.cpp:340-438 | a successful allocation hands out one block of exactly the size asked for, from the tree or new, and leaves every other block as it was |
| `HeapModel.HandedOut` | src/mm.cpp:340-438 | the block handed out was not in use, lies in obtained pages and is apart from every block in use |
| `HeapModel.FreeBlockInv` | src/mm.cpp:494-530 | freeing a live block keeps the heap sound |
| `HeapModel.FreeTailInv` | src/mm.cpp:394-404 | giving the leftover of the bump region to the tree keeps blocks disjoint and the tree exact |
| `HeapModel.StepInv` | src/mm.cpp:457-581 | every alloc, free and realloc keeps the invariant; no block is split, merged, moved or resized, and a freed block outside the tree stays freed and outside |
| `HeapModel.RunInv` | src/mm.cpp:457-581 | the same over every run from any sound state |
| `HeapModel.RunSafety` | src/mm.cpp:340-581 | on every run from boot, live extents are pairwise disjoint, disjoint from every block in the free tree and from the bump region, and inside obtained pages |
| `HeapModel.DoubleFree` | src/mm.cpp:494-513 | a freed pointer is refused when freed again, after any run in which no call returned it |
| `HeapModel.OnlyAnswered` | src/mm.cpp:340-581 | a freed block comes into use again only by being what a call returns |
| `HeapModel.ReallocAnswer` | src/mm.cpp:544-581 | realloc returns a block of exactly the size asked for, which is in use unless a freed block of that very size was given |
| `HeapModel.FreedPointerReused` | src/mm.cpp:551-561 | a freed block returned by realloc and by the next alloc as well, after which freeing the old pointer is accepted |
| `HeapModel.PageFailureHazard` | src/mm.cpp:394-412 | when no page comes after the tail was freed, the tail is both a freed block and the bump region |
| `HeapModel.WrapHazard` | src/mm.cpp:378-422 | a request that wraps the 32-bit sum passes the bump test and reaches past all memory |
| `HeapModel.FromTree` | src/mm.cpp:302-378 | with a freed block of exactly the size asked for, the answer is one of them, and only the tree changes |
| `HeapModel.FromRegion` | src/mm.cpp:379-422 | without one, a bump region whose room exceeds header and size serves the request and moves by just that, whatever page would come; tree and pages are unchanged |
| `HeapModel.PagesIff` | src/mm.cpp:374-412 | pages are asked for if and only if no freed block has the size and the region is missing or short; the least number that holds block and header is taken, and the region is what is left of them |
| `HeapModel.TailReleased` | src/mm.cpp:383-412 | before that, a leftover of more than four bytes becomes a freed block up to the end of the region, a smaller one is lost; without a page the answer is null |
| `HeapModel.FreeExact` | src/mm.cpp:494-530 | free of a block in use marks it freed, adds it to the tree under its size and changes nothing else |
| `HeapModel.FreedIsReused` | src/mm.cpp:340-530 | after a free the next allocation of that size is served from the tree |
| `HeapModel.ReallocExact` | src/mm.cpp:544-581 | realloc case by case: size 0 frees, the same size changes nothing, else it is an allocation that frees the old block exactly when it succeeds; other blocks are untouched |
| `HeapHeaders.StoreLink` | src/mm.cpp:58-71 | storing a link of one header changes that field alone, in no other header and no other byte |
| `HeapHeaders.WriteHeaderInfo` | src/mm.cpp:429-435 | the header bytes allocMem writes read back as a live block of that size without links |
| `HeapHeaders.HeadersKeepPayload` | src/mm.cpp:340-530 | stores confined to headers leave every payload byte of every live block alone |
| `Memory.CopiedMoved` | src/string.cpp:9-21 | a front-to-back copy is a move unless the destination starts inside the source |
| `Memory.Copy` | src/string.cpp:9-21 | every destination byte is the byte a front-to-back copy leaves, overlap included; null pointers change nothing |
| `Memory.Move` | src/string.cpp:23-39 | the destination holds the old source bytes for every overlap, and nothing else changes |
| `Heap.MM.FindSlot` | src/mm.cpp:186-238 | the descent ends at the insertion point of the size |
| `Heap.MM.TreeAdd` | src/mm.cpp:173-239 | the headers spell the tree with the block inserted, and only link words of headers changed |
| `Heap.MM.ReleaseFree` | src/mm.cpp:241-300 | the headers spell the tree with the block released, and only link words changed |
| `Heap.MM.ReleaseRoot` | src/mm.cpp:256-271 | the same when the block is the root |
| `Heap.MM.ReleaseChild` | src/mm.cpp:272-288 | the same when it has a parent |
| `Heap.MM.Locate` | src/mm.cpp:302-338 | the pointer walk finds what the abstract search finds, so an exact fit whenever there is one |
| `Heap.MM.Choose` | src/mm.cpp:312-334 | one turn of the walk goes to a subtree with the same search result, side branches included, or stops where there is none |
| `Heap.MM.FindAvail` | src/mm.cpp:302-338 | an exact fit is taken out of the tree, otherwise nothing changes |
| `Heap.MM.FreeNoLock` | src/mm.cpp:494-530 | null, unused and freed blocks are refused; else the block is freed, and only header bytes change |
| `Heap.MM.GiveTail` | src/mm.cpp:394-404 | the leftover of the bump region becomes a freed block, only header bytes change |
| `Heap.MM.FromRegion` | src/mm.cpp:378-422 | a block from the bump region or from new pages, as the state machine says |
| `Heap.MM.AllocMem` | src/mm.cpp:340-438 | bytes and cursors go through exactly the state machine's step; outside the two hazards memory and abstract heap stay in agreement and no live payload byte changes |
| `Heap.MM.Alloc` | src/mm.cpp:457-492 | always the state machine's step; outside the two hazards sound, an exact block not in use before, and no live payload byte changed |
| `Heap.MM.Free` | src/mm.cpp:532-542 | as the state machine, and no live payload byte changed |
| `Heap.MM.AllocClear` | src/mm.cpp:440-455 | the state machine's step; the new payload is all zero; if a page came when it was needed, no earlier payload byte changed |
| `Heap.MM.Realloc` | src/mm.cpp:544-581 | the state machine's step; unless no page came after the tail was released, a live block resized to a nonzero size keeps its first min(old, new) bytes, every other live payload is unchanged, and what is returned is a block in use of the size asked for except for a freed block of that size |
| `HeapPages.MappedIsFresh` | src/mm.cpp:96-115 | a range that map returns is apart from every range the heap has, and all of them stay mapped |
| `HeapPages.ObtainFresh` | src/paging.cpp:54-94 | what the heap assumes of allocPage holds of map, for ranges that end below 4 GiB |
| `HeapPages.StepInv` | src/mm.cpp:340-581 | every heap call, with its pages from map, and every paging call keep heap, page tables and the heap's mapping sound |
| `HeapPages.RunInv` | src/mm.cpp:340-581 | the same over every run of both together |
| `MutexProtocol.StepInv` | inc/mutex.hh:12-85 | every micro-step of lock, unlock, enqueue and dequeue by any task keeps: one owner at most, value 1 exactly when owned, queues spelled by the intrusive links, queued tasks blocked or about to be |
| `MutexProtocol.RunInv` | inc/mutex.hh:12-85 | the same over every interleaving |
| `MutexProtocol.MutexSafety` | inc/mutex.hh:47-85 | on every interleaving over any number of tasks and mutexes: no two tasks hold a mutex, value 0 only without owner and with an empty queue, parked tasks are BLOCKED and lie in exactly one queue, and the mutex is given in the order tasks passed the test |
| `MutexProtocol.OneQueue` | src/waitlist.cpp:5-45 | a task waits in at most one queue, so its one intrusive link is enough |
| `MutexProtocol.LinkQueues` | src/waitlist.cpp:10-14 | linking an item behind a tail extends that queue and touches no other |
| `MutexProtocol.UnlinkQueues` | src/waitlist.cpp:28-33 | unlinking the head shortens that queue and touches no other |
| `MutexProtocol.HandOff` | inc/mutex.hh:63-82 | unlock with a queue makes its first task the owner without the value ever being 0 |
| `MutexProtocol.LockFree` | inc/mutex.hh:51-61 | lock of a free mutex: the task's own steps return with the mutex held and the spinlock free |
| `MutexProtocol.LockBusy` | inc/mutex.hh:51-61 | lock of a taken mutex: the task's own steps end parked, BLOCKED and last in the queue, the spinlock free |
| `MutexProtocol.UnlockFrees` | inc/mutex.hh:63-73 | unlock with an empty queue: the task's own steps end with the mutex free, without owner, and the spinlock free |
| `MutexProtocol.UnlockHandsOver` | inc/mutex.hh:63-73 | unlock with waiting tasks: the task's own steps end with the first of them owner and not BLOCKED any more, the others queued as before |
| `MutexProtocol.UnlockedOnReturn` | inc/mutex.hh:63-73 | whatever others did meanwhile, a task that returns from unlock does not own the mutex |
| `MutexProtocol.ParkedReturns` | inc/mutex.hh:56-61 | a parked task that is not BLOCKED any more returns from lock with the mutex |
| `MutexProtocol.SpuriousResume` | inc/mutex.hh:51-61 | when a parked task runs on, it is the only owner of that mutex if and only if it had been given it |
| `MutexProtocol.ResumeSoundIff` | inc/mutex.hh:51-61 | in every reachable state, letting a parked task run on leaves the whole state sound if and only if its status is not BLOCKED any more |
| `MutexProtocol.TwoOwners` | inc/mutex.hh:51-61 | a run in which task 0 locks and task 1 parks, after which letting task 1 run on makes both hold the mutex |
| `MutexProtocol.PreemptedWaiter` | inc/mutex.hh:56-60 | while a task that blocked itself and still has the spinlock does not run, the mutex stays locked up and nobody is given it, on every run of the others |
| `MutexProtocol.WaiterReleases` | inc/mutex.hh:56-60 | one step of that task releases the spinlock |
| `MutexProtocol.WaiterReached` | inc/mutex.hh:51-61 | a run that leads to such a task while another holds the mutex |
| `Waitlist.Waitlist.Enqueue` | src/waitlist.cpp:5-19 | the calling task is appended and BLOCKED; no other task's status changes |
| `Waitlist.Waitlist.Dequeue` | src/waitlist.cpp:21-45 | the first task is taken off and made schedulable; an empty queue stays empty |
| `Waitlist.Waitlist.Empty` | src/waitlist.cpp:51-54 | true exactly for the empty queue |
| `List.List.GetFree` | src/list.cpp:17-29 | a node not linked, taken from the cache if it holds one |
| `List.List.Free` | src/list.cpp:31-38 | the cache takes an unlinked node while it holds fewer than 31 |
| `List.List.AddFirst` | src/list.cpp:40-51 | prepends |
| `List.List.Append` | src/list.cpp:53-65 | appends, tail and size exact |
| `List.List.First` | src/list.cpp:67-71 | first value, null when empty |
| `List.List.Last` | src/list.cpp:105-109 | last value, null when empty |
| `List.List.RotateFirstLast` | src/list.cpp:73-86 | rotates by one, the same nodes linked |
| `List.List.TakeFirst` | src/list.cpp:88-103 | removes and returns the first value |
| `List.List.At` | src/list.cpp:166-183 | the i-th value, null past the end |
| `List.List.AppendAfter` | src/list.cpp:185-216 | inserts behind position i, at the end of a shorter list; null is refused |
| `List.List.AddAt` | src/list.cpp:218-247 | inserts before position i; the tail pointer is right afterwards if and only if the value is null, i is 0 or below the size, or the list was empty |
| `List.TailLost` | src/list.cpp:218-247 | adding behind the one element of a list leaves the tail pointer wrong |
| `List.List.DeleteAt` | src/list.cpp:249-301 | removes position i; asked for the position just past the end it empties the list |
| `SchedulerModel.Selection` | src/processmanager.cpp:113-160 | the search ends, only rotates the list, keeps current exactly when every task ahead of it is BLOCKED, and else picks the first task ahead that is not, now last in the list |
| `SchedulerModel.SearchSpec` | src/processmanager.cpp:124-158 | from any point of the search, the list and task it ends on |
| `SchedulerModel.SliceBound` | src/processmanager.cpp:187-201 | whatever the priority and niceness, a slice lies between the minimum and the bound for n tasks |
| `SchedulerModel.SliceExact` | src/processmanager.cpp:187-201 | for weight w = max(1, 20 - priority + niceness) the slice is the s with s w n <= 500 < (s + 1) w n, or 20 if that is longer |
| `SchedulerModel.ShareOf` | src/processmanager.cpp:193-197 | there is such an s for every weight and number of tasks |
| `SchedulerModel.SliceMonotone` | src/processmanager.cpp:187-201 | a higher priority or a lower niceness never shortens the slice |
| `SchedulerModel.LongestSlice` | src/processmanager.cpp:187-201 | the highest priority with niceness 0 gets the longest slice there is among n tasks |
| `SchedulerModel.Switched` | src/processmanager.cpp:161-201 | after a switch the chosen task is RUNNING with the slice of its weight, cut at its own size; the old one is WAITING unless BLOCKED; no other task and no other field changes |
| `SchedulerModel.RunsItsSlice` | arch/x86/timerx86.cpp:25-38 | over any number of ticks up to its slice the running task keeps the processor and loses one tick of slice for each; the tick behind the last one schedules |
| `SchedulerModel.FairSchedule` | src/processmanager.cpp:109-220 | with distinct, unblocked tasks and current last, schedule runs the head and keeps the round fair |
| `SchedulerModel.RoundRobin` | src/processmanager.cpp:109-220 | n schedules over n tasks run every task exactly once, in list order |
| `SchedulerModel.WaitBound` | arch/x86/timerx86.cpp:25-38 | a task gets its turn within the rest of the current slice plus a full turn of each task ahead |
| `SchedulerModel.TurnGap` | src/processmanager.cpp:187-201 | over any ticks, yields and changes of priority, niceness and size, no task of n waits more than max(21n, 500+n) ticks for its turn |
| `SchedulerModel.HeadStaysForever` | src/processmanager.cpp:124-132 | with current at the head no schedule changes anything, whatever the statuses become |
| `SchedulerModel.CapturedForever` | src/processmanager.cpp:124-160 | once every task ahead was BLOCKED at one schedule, the running task keeps the processor for ever |
| `SchedulerModel.BlockedKeepsRunning` | src/processmanager.cpp:128-136 | two tasks, the running one BLOCKED at the head and the other ready: schedule changes nothing |
| `Scheduler.ProcessManager.AddTask` | src/processmanager.cpp:37-71 | the task is last in the list and running, with a new pid if it had none |
| `Scheduler.Turn` | src/processmanager.cpp:128-157 | one look at the first node of the linked list, and its rotation unless it is current |
| `Scheduler.Pick` | src/processmanager.cpp:124-158 | over the linked list, the rotation loop ends whenever some task is current or not BLOCKED, and leaves the list and task of the selection rule |
| `Scheduler.ProcessManager.Schedule` | src/processmanager.cpp:109-220 | list, statuses, current and the new slice as the value-level step; nothing without tasks |
| `Scheduler.ProcessManager.Run` | arch/x86/timerx86.cpp:25-38 | a tick spends the slice or schedules |
| `Scheduler.AddedIsFair` | src/processmanager.cpp:37-71 | adding a task to unblocked tasks starts a fair round |
| `Bits.SetExact` | src/bits.cpp:25-52 | set and clear change exactly the bit asked for and nothing past the count |
| `Bits.ScanLeast` | src/bits.cpp:69-98 | the nested scan finds the least clear bit that is not the top bit of its word |
| `Bits.HintedEqualsFull` | src/bits.cpp:69-98 | with a sound hint the search equals the full scan: the least bit on offer, or none when there is none |
| `Bits.RunHint` | src/bits.cpp:25-98 | on every run of set, clear and findUnset all words below the hint have their low 31 bits set |
| `Bits.PaddingOffered` | src/bits.cpp:69-98 | the search answers a bit past the count exactly when no bit in use is on offer |
| `Bits.SafeCountInside` | src/bits.cpp:6-16 | for counts 0 or 31 modulo 32 the search never answers past the count |
| `Bits.UnsafeCountRepeats` | src/bits.cpp:25-98 | for any other count a full bitmap makes the search answer a padding bit that set refuses, in a state that neither set nor another search changes, so for ever |
| `Bits.OneBitRepeats` | src/bits.cpp:25-98 | a bitmap of one bit, set, for which that happens |
| `FrameBits.FrameBits.constructor` | src/bits.cpp:6-16 | all bits clear, hint sound |
| `FrameBits.FrameBits.ClearAll` | src/bits.cpp:18-23 | clears every bit; the hint is sound afterwards if and only if it was 0 |
| `FrameBits.FrameBits.Set` | src/bits.cpp:25-37 | in place as on values, refused past the count, hint kept sound |
| `FrameBits.FrameBits.Clear` | src/bits.cpp:39-52 | in place as on values, hint kept sound |
| `FrameBits.FrameBits.Test` | src/bits.cpp:54-67 | whether the bit is set; false past the count |
| `FrameBits.FrameBits.FindUnset` | src/bits.cpp:69-98 | the least bit on offer of the whole bitmap |
| `PagingModel.FilledFacts` | arch/x86/pagingx86.h:22-51 | a filled entry is present, writable, owned as asked and points at the frame asked for |
| `PagingModel.ReserveKeeps` | arch/x86/pagingx86.cpp:545-564 | reserving a table changes no entry and unmarks no frame |
| `PagingModel.StaticGrows` | src/paging.cpp:96-114 | static allocation marks every frame from its address to its end, the one behind included, and unmarks none |
| `PagingModel.MapPageFresh` | arch/x86/pagingx86.cpp:423-445 | one turn of map: the page was free and is present on a frame not marked before; no other entry changes |
| `PagingModel.MapPageIff` | arch/x86/pagingx86.cpp:294-338 | the turn succeeds if and only if the page is free, has or gets a table, and a frame is on offer; the frame is the least one |
| `PagingModel.RangeFlags` | arch/x86/pagingx86.cpp:331-332 | over the loop every page is as before, or present, writable and with the user bit exactly when asked for |
| `PagingModel.MapRangeFresh` | arch/x86/pagingx86.cpp:423-445 | over the loop: distinct fresh frames, all other entries unchanged, also when it stops half way |
| `PagingModel.MapFresh` | arch/x86/pagingx86.cpp:399-452 | a successful map returns cnt consecutive pages, all present, writable, with the user bit exactly when asked for, on pairwise distinct frames not marked before, and leaves every other entry unchanged |
| `PagingModel.MapCursors` | arch/x86/pagingx86.cpp:399-452 | the range starts at the aligned cursor, which moves past it also when map fails; the other cursor stays |
| `PagingModel.NoOverlap` | arch/x86/pagingx86.cpp:399-452 | a page in use is in no range mapped later |
| `PagingModel.IdentityKeeps` | arch/x86/pagingx86.cpp:260-292 | an identity mapping maps its page to its frame with the flags asked for and marks it, changes no other entry and unmarks no frame |
| `PagingModel.GetFrameExact` | arch/x86/pagingx86.cpp:341-352 | getPage answers the least frame on offer, or nothing when there is none, and marks that frame only |
| `PagingModel.MapPhysKeeps` | arch/x86/pagingx86.cpp:364-396 | mapPhys changes at most the page at the cursor and unmarks no frame |
| `PagingModel.MapPhysExact` | arch/x86/pagingx86.cpp:364-396 | the page at the cursor, if it is free and gets a table, is mapped with its flags onto the frame of the address, which is marked; the cursor moves by a page in any case; the answer is success if and only if the page was mapped and the frame not marked before |
| `PagingModel.StepSound` | arch/x86/pagingx86.cpp:260-452 | every operation keeps filled pages present on their own marked frames, keeps their frames, unmarks nothing, and gives newly filled pages frames not marked before by anyone |
| `PagingModel.RunSound` | arch/x86/pagingx86.cpp:260-452 | over any run without unmap, pages filled by map never share a frame with each other or with getPage, keep the frame they got, and get none that map, getPage, an identity mapping or static memory had marked when the run began |
| `StaticMemory.StepApartIff` | arch/x86/pagingx86.cpp:489-504 | a step keeps static memory apart from the frames map and getPage gave out if and only if, in the state before it, the static memory it is about to take holds none of them; for map, table by table |
| `StaticMemory.RangeApart` | arch/x86/pagingx86.cpp:423-445 | over the loop of map: static memory stays apart from all frames, those of the loop included, if and only if every table it adds is clear before its turn |
| `StaticMemory.RunApartIff` | arch/x86/pagingx86.cpp:489-504 | a run keeps static memory apart from the frames given out throughout if and only if each of its steps is clear |
| `StaticMemory.RunReserved` | arch/x86/pagingx86.cpp:213-220 | what is marked and not given out at the start stays so on every run, and as long as static memory has not outgrown it no frame given out lies in static memory |
| `StaticMemory.RangeGrew` | arch/x86/pagingx86.cpp:545-564 | the page tables that a map adds take the next addresses of static memory, all marked |
| `Outgrown.StaticCollides` | arch/x86/pagingx86.cpp:115-228 | from the state init leaves on a machine of 4 MiB: getPage calls up to the first frame behind what init set aside, and then a static allocation that hands out that frame |
| `Outgrown.CallsRun` | arch/x86/pagingx86.cpp:341-352 | those getPage calls as a run, each giving out the next free low frame |
| `Paging.PagingPrivate.IncFreePageAddress` | arch/x86/pagingx86.cpp:489-504 | every frame passed is marked |
| `Paging.PagingPrivate.AllocStatic` | src/paging.cpp:96-114 | as static allocation on values |
| `Paging.PagingPrivate.GetPage` | arch/x86/pagingx86.cpp:545-564 | as the reservation on values |
| `Paging.PagingPrivate.MapFrame` | arch/x86/pagingx86.cpp:294-338 | a page in use is left alone with success; a free one gets the least free frame, marked, or nothing changes |
| `Paging.PagingPrivate.MapPages` | arch/x86/pagingx86.cpp:423-445 | the page loop equals the recursive range |
| `Paging.PagingPrivate.Map` | arch/x86/pagingx86.cpp:399-452 | cursors, bitmap and entries as map on values |
| `ClothesModel.TakeExact` | src/fs/clothesfs.cpp:277-298 | taking a block yields the head of the chain, 0 when it is empty, and leaves a sound device that differs in the header only |
| `ClothesModel.FindZeroFirst` | src/fs/clothesfs.cpp:390-397 | the scan stops no later than any zero word |
| `ClothesModel.AddToMetaGrown` | src/fs/clothesfs.cpp:359-417 | entering a block, through any continuation blocks, keeps the chain and writes no block on it |
| `ClothesModel.AddDataGrown` | src/fs/clothesfs.cpp:419-455 | the same for contents of any length |
| `ClothesModel.StepGrown` | src/fs/clothesfs.cpp:492-539 | the same for addFile and addDir, failures included |
| `ClothesModel.RunGrown` | src/fs/clothesfs.cpp:492-539 | on every run the chain only loses blocks from its front, and every block still on it is as formatted |
| `ClothesBlocks.StepBlocksExact` | src/fs/clothesfs.cpp:359-539 | the blocks one addFile or addDir takes for meta, data and continuation blocks, also when it fails, are exactly those from the first free block before to the first free block after |
| `ClothesBlocks.RunBlocksExact` | src/fs/clothesfs.cpp:277-539 | over every run the blocks handed out are exactly the numbers from the first free block at its start to the one at its end, once each and in order |
| `ClothesBlocks.HandedOutOnce` | src/fs/clothesfs.cpp:277-298 | no block is handed out twice in a run, and none that was in use before it |
| `ClothesModel.ChainExact` | src/fs/clothesfs.cpp:121-143 | following the links visits each free block once, all of them META_FREE, and ends at 0 |
| `ClothesModel.FormatInv` | src/fs/clothesfs.cpp:159-242 | a formatted device is sound and its chain starts at block 2 |
| `ClothesModel.HeaderSound` | src/fs/clothesfs.cpp:64-82 | a header as format writes it starts the free chain at block 2, and detect finds the magic and the block size in it |
| `ClothesTree.NameWord` | src/fs/clothesfs.cpp:380-389 | the scan starts one word before the reader's first slot, on a word of the name that is not zero |
| `ClothesTree.EmptyNameOverwritten` | src/fs/clothesfs.cpp:380-397 | with an empty name the scan overwrites the length word |
| `ClothesTree.LengthOverwrittenIff` | src/fs/clothesfs.cpp:380-397 | the first entry of a new object overwrites its length word if and only if its name is empty |
| `ClothesTree.LinkSurvives` | src/fs/clothesfs.cpp:473-483 | writing a name leaves the link word alone if and only if it has at most 492 bytes |
| `ClothesTree.EntrySlot` | src/fs/clothesfs.cpp:380-397 | the scan finds the slot behind the last entry |
| `ClothesTree.EntryAdded` | src/fs/clothesfs.cpp:390-397 | writing there appends one entry and keeps name, earlier entries and link |
| `ClothesTree.EntryPlaced` | src/fs/clothesfs.cpp:359-417 | an entry goes into the first zero word of the first block, in the order of the links, that has one; when all are full, into a new continuation of the last; it fails, and changes nothing, exactly when the links lead to a block of another type or no block is free |
| `ClothesTree.ContinuationMisread` | src/fs/clothesfs.cpp:578-605 | behind the last entry of a full block the listing shows the block whose number is the continuation's header word, not the entry |
| `ClothesTree.DataAdded` | src/fs/clothesfs.cpp:419-455 | contents of any length: addData succeeds, enters its blocks in order and block i holds bytes 508 i up to 508 (i + 1) of the contents |
| `ClothesTree.FormatRep` | src/fs/clothesfs.cpp:159-242 | a formatted device spells an empty root directory named "/" |
| `ClothesTree.AddDirExact` | src/fs/clothesfs.cpp:518-539 | addDir succeeds, appends an empty directory to its parent and changes no other object |
| `ClothesTree.AddFileExact` | src/fs/clothesfs.cpp:492-516 | for contents of any length addFile succeeds, appends a file that lists its data blocks in order, each with its 508 bytes of exactly these contents, under their length, and changes no other object |
| `ClothesTree.AddDirIff` | src/fs/clothesfs.cpp:518-539 | with room for the entry, addDir succeeds if and only if a block is free |
| `ClothesTree.AddFileIff` | src/fs/clothesfs.cpp:419-516 | with room for the entries, addFile succeeds if and only if a block is free for the object and for each piece of the contents |
| `ClothesTree.ParentRefused` | src/fs/clothesfs.cpp:359-378 | nothing is added without a parent or to a file |
| `ClothesTree.TreeRunRep` | src/fs/clothesfs.cpp:492-539 | after every run of fitting operations the device spells the tree they build; files are as they were, directories only gained entries at the end |
| `ClothesTree.ListExact` | src/fs/clothesfs.cpp:541-605 | list and next visit exactly a directory's objects, in the order they were added, under their exact names, and then stop |
| `ClothesTree.ReadsExact` | src/fs/clothesfs.cpp:607-677 | any reads in a row, of no more bytes than the first data block holds of the file, return its contents in order |
| `ClothesTree.ReadAnswer` | src/fs/clothesfs.cpp:607-677 | what any read answers: the contents from where the last one ended, then zeros, up to the end of the first data block; behind that end the first bytes once more, because the reader never advances to a second block |
| `ClothesTree.ContentsExact` | src/fs/clothesfs.cpp:607-677 | reading a listed file returns the start of its exact contents, up to 508 bytes |
| `ClothesFS.DataToNum` | src/fs/clothesfs.cpp:44-53 | the loop reads the little-endian number of up to four bytes |
| `ClothesFS.NumToData` | src/fs/clothesfs.cpp:55-62 | the loop stores the low bytes of the number there and changes no other byte |
| `ClothesFS.Filesystem.GetBlock` | src/fs/clothesfs.cpp:84-100 | the loop that counts down from 0 reads exactly one sector |
| `ClothesFS.Filesystem.FormatBlocks` | src/fs/clothesfs.cpp:132-143 | every block from 2 on is linked to its successor, the last to 0 |
| `ClothesFS.Filesystem.TakeFreeBlock` | src/fs/clothesfs.cpp:277-298 | as on values; the record of blocks handed out gains the block and stays the numbers up to the first free one |
| `ClothesFS.Filesystem.ScanMeta` | src/fs/clothesfs.cpp:380-397 | the alignment loop, 32-bit wrap included, and the scan find the first zero word |
| `ClothesFS.Filesystem.AddToMeta` | src/fs/clothesfs.cpp:359-417 | as on values, continuation blocks included; terminates |
| `ClothesFS.Filesystem.UpdateMeta` | src/fs/clothesfs.cpp:457-490 | size, name and length are written into the block; refused for other types |
| `ClothesFS.Filesystem.AddData` | src/fs/clothesfs.cpp:419-455 | as on values, block by block |
| `ClothesFS.Filesystem.AddFile` | src/fs/clothesfs.cpp:492-516 | as on values; the chain is sound and every block handed out since format was handed out once |
| `ClothesFS.Filesystem.AddDir` | src/fs/clothesfs.cpp:518-539 | as on values; the chain is sound and every block handed out since format was handed out once |
| `ClothesFS.Header` | src/fs/clothesfs.cpp:162-227 | the header sector, byte for byte: magic, block size, volume identifier, size and name up to its first NUL or 32 bytes, root and used blocks, no journals, free chain |
| `ClothesFS.Filesystem.Format` | src/fs/clothesfs.cpp:159-242 | whatever the volume name, the device has this header, its blocks are formatted and spell an empty root directory |
| `ClothesFS.Filesystem.Detect` | src/fs/clothesfs.cpp:64-82 | the magic and the block size of the header |
| `ClothesFS.Iterator.constructor` | src/fs/clothesfs.cpp:541-564 | list as on values |
| `ClothesFS.Iterator.GetCurrent` | src/fs/clothesfs.cpp:566-605 | as on values |
| `ClothesFS.Iterator.Next` | src/fs/clothesfs.cpp:679-687 | as on values |
| `ClothesFS.Iterator.Name` | src/fs/clothesfs.cpp:696-706 | the name bytes of the entry |
| `ClothesFS.Iterator.Read` | src/fs/clothesfs.cpp:607-677 | as on values |
| `Bytes.DecodeEncode` | src/fs/clothesfs.cpp:44-62 | reading back a stored number gives it again when it fits |
| `Bytes.EncodeDecode` | src/fs/clothesfs.cpp:44-62 | storing a number read gives the same bytes again |
| `UstarModel.SizeBound` | src/fs/ustar.cpp:52-71 | a size field never overflows 64 bits |
| `UstarModel.HeadersRise` | src/fs/ustar.cpp:160-194 | the headers of an archive rise strictly, each one plus the blocks of its contents behind the last |
| `UstarModel.NextRises` | src/fs/ustar.cpp:160-194 | block numbers rise strictly even where positions wrap, short of the largest 32-bit number |
| `UstarModel.NextExact` | src/fs/ustar.cpp:160-194 | next goes to the following header or reports the end, on entries that end below 4 GiB |
| `UstarModel.NextExactIff` | src/fs/ustar.cpp:160-194 | exactly when next is right on any entry |
| `UstarModel.WrapHazard` | src/fs/ustar.cpp:160-194 | an entry of the largest octal size makes next return to the following block |
| `UstarModel.WalkExact` | src/fs/ustar.cpp:141-194 | list and next visit exactly the recursively defined headers and stop at the first other block or the end |
| `UstarModel.ImageAt` | src/fs/ustar.cpp:109-125 | block k is the slice of the image at 512 k |
| `UstarModel.ReadsContiguous` | src/fs/ustar.cpp:196-231 | any sequence of reads yields one contiguous slice of the image: exactly the first min(total requested, available) bytes, none skipped or repeated |
| `Ustar.ParseOct` | src/fs/ustar.cpp:52-71 | the value of the leading digits in base 8 |
| `Ustar.Iterator.constructor` | src/fs/ustar.cpp:141-158 | list of the whole archive as on values |
| `Ustar.Iterator.GetCurrent` | src/fs/ustar.cpp:160-194 | as on values |
| `Ustar.Iterator.Next` | src/fs/ustar.cpp:233-240 | as on values |
| `Ustar.Iterator.Read` | src/fs/ustar.cpp:196-231 | the chunk loop returns the next min(cnt, available) bytes of the image as one slice |
| `Ustar.FindFile` | src/fs/ustar.cpp:317-336 | the first entry with the name, ready to be read, or not ok exactly when no entry has it |
| `Flags.ChainIsRipple` | 3rdparty/my_x86emu/x86emu.c:5897-5958 | at any width the carry formula, from operands and result, gives the ripple carries |
| `Flags.RippleAdds` | 3rdparty/my_x86emu/x86emu.c:6077-6233 | the ripple adder's bits are the bits of the integer sum |
| `Flags.CarryMeans` | 3rdparty/my_x86emu/x86emu.c:6077-6233 | the carry out of the low k bits is set exactly when their sum reaches 2^k |
| `Flags.BorrowChainExact` | 3rdparty/my_x86emu/x86emu.c:7679-7820 | the borrow formula gives the carries of the complement plus the subtrahend |
| `Flags.BorrowMeans` | 3rdparty/my_x86emu/x86emu.c:7679-7820 | the borrow out of the low k bits is set exactly when the low parts underflow |
| `Flags.AddOverflow` | 3rdparty/my_x86emu/x86emu.c:6077-6233 | the two highest carries give the unsigned overflow and, by differing, exactly the signed one |
| `Flags.SubOverflow` | 3rdparty/my_x86emu/x86emu.c:7679-7820 | the same for the borrows of a subtraction |
| `Flags.CarryOut` | 3rdparty/my_x86emu/x86emu.c:6131-6156 | the carry flag, taken from bit n or at 32 bits from the halves, is set exactly on unsigned overflow |
| `Flags.AddWithCarry` | 3rdparty/my_x86emu/x86emu.c:6077-6233 | all six flags and the result of add and adc mean what the architecture says, at any width |
| `Flags.SubWithBorrow` | 3rdparty/my_x86emu/x86emu.c:6302-6378 | the same for sub, sbb and cmp |
| `Flags.JumpsDecide` | 3rdparty/my_x86emu/x86emu.c:4580-4628 | after cmp the jump conditions decide exactly the unsigned and signed orderings of the operands |
| `Flags.FlagJumps` | 3rdparty/my_x86emu/x86emu.c:4580-4616 | the jumps on overflow, sign and parity tell whether the signed difference does not fit, whether the reduced one is negative, and whether its low byte has an even number of ones |
| `Flags.AddInParts` | 3rdparty/my_x86emu/x86emu.c:6077-6233 | add of the low parts followed by adc of the high parts is the double-width sum with its carry and its signed overflow |
| `Flags.Emulator.Add` | 3rdparty/my_x86emu/x86emu.c:6164-6233 | result and flags of add |
| `Flags.Emulator.Adc` | 3rdparty/my_x86emu/x86emu.c:6077-6156 | result and flags of adc with the current carry |
| `Flags.Emulator.Sub` | 3rdparty/my_x86emu/x86emu.c:7757-7820 | result and flags of sub |
| `Flags.Emulator.Sbb` | 3rdparty/my_x86emu/x86emu.c:7679-7751 | result and flags of sbb with the current carry |
| `Flags.Emulator.Cmp` | 3rdparty/my_x86emu/x86emu.c:6302-6378 | the flags of sub and the first operand back |
| `Division.Justify` | src/math.cpp:15-19 | the denominator is shifted up to bit 63, the shift counted as a power of two |
| `Division.UDivMod` | src/math.cpp:5-33 | for all 64-bit operands the loops end with quot * den + rem = num and rem < den; zero traps |
| `Division.UDiv` | src/math.cpp:35-38 | the quotient |
| `Division.UMod` | src/math.cpp:40-46 | the remainder |
| `Division.Div` | src/math.cpp:48-67 | truncated signed division for all operands but the minimum divided by -1, and not for that one |
| `Division.Mod` | src/math.cpp:69-88 | the remainder of truncated division if and only if den > 0 or den divides num |
| `Division.MinimumQuotient` | src/math.cpp:48-67 | the minimum divided by -1: what the code returns is not the truncated quotient |
| `Division.NegativeDivisor` | src/math.cpp:69-88 | 7 modulo -2: the code returns -1, the remainder is 1 |

## Left out

- Locks inside the allocator, the paging code and the process manager, and the diagnostics they print: the state machines take each call as one step; the mutex itself is modelled step by step.
- The page kind of `MM::alloc`, which hands out whole pages without a header.
- HeapModel.RunSafety: takes runs in which neither hazard of `AllocInvIff` occurs; that pages come fresh is proved of map in `HeapPages`, for ranges that end below 4 GiB.
- Heap.MM.AllocClear: not for requests whose bump test wraps; the code then clears memory past the end of the address space.
- Heap.MM.Realloc: not for requests whose bump test wraps; the code then moves bytes past the end of the address space.
- MutexProtocol.MutexSafety: assumes that a parked task runs on only after it was dequeued, because the scheduler alone does not ensure it (`SchedulerModel.CapturedForever`).
- Scheduler.Pick: takes a list in which some task is current or not BLOCKED; otherwise the loop in the code does not end.
- Scheduler.ProcessManager.Schedule: takes a current task, which the code dereferences without a test.
- Scheduler.ProcessManager.Run: the same, once the process manager runs.
- The context switch, page directory change, task locks and processor pools of `schedule`; a switch is the new current task. `killer` and `yield`'s halt loop.
- Freedom from starvation when tasks may block: it does not hold, because of the early return for a task at the head.
- `List::deleteAll`, which dereferences a null pointer when it removes the head.
- `Bits::copyFrom`, and `PagingPrivate::init` with its memory map.
- Paging.PagingPrivate.MapFrame: takes the page's table to be there, a missing one being refused before; running out of frames is a failure here; the code stops the machine.
- ClothesFS.Filesystem.Detect: a block size other than 512 in the header, which the code then works with.
- `unmap`, `freePage` and `Paging::free`, which divide the address by the page size twice; directory copies; access and dirty bits.
- ClothesFS with a block size other than 512 bytes or sectors of another size: `getBlock` reads only one sector of a larger block.
- ClothesModel.StepGrown: takes names without NUL of at most 492 bytes; a longer one ends in the link word (`ClothesTree.LinkSurvives`) or overruns the buffer.
- ClothesModel.RunGrown: the same names.
- ClothesBlocks.StepBlocksExact: the same names.
- ClothesBlocks.RunBlocksExact: the same names.
- ClothesBlocks.HandedOutOnce: the same names.
- ClothesFS.Filesystem.UpdateMeta: the same names; a name given as a C string ends at its first NUL.
- ClothesFS.Filesystem.AddFile: the same names.
- ClothesFS.Filesystem.AddDir: the same names.
- ClothesFS.Iterator.Name: not for a length word that reaches past the block, where the code reads past its buffer.
- ClothesTree.TreeRunRep: takes names that are not empty and entries that fit the first block of their object, because the reader starts continuation blocks at offset 0 (`ClothesTree.ContinuationMisread`); allocation safety and `ClothesTree.EntryPlaced` are proved without that limit.
- ClothesTree.ReadsExact: up to the end of the file's first data block; past it the code returns the first bytes again (`ClothesTree.ReadAnswer`).
- ClothesTree.ContentsExact: the same limit.
- ClothesFS.Header: follows the code, which leaves out the group identifier that doc/clothes.md places between name and root block.
- ClothesFS.Iterator.constructor: its buffers start out zero; the code leaves them as allocated, and reads none of them before it fills them.
- `addFreeBlock` and `Iterator::remove`, which never write the freed block back; `Iterator::size` and `type`.
- Listing an archive from a block other than 0, where the code uses a size it never set; the header's type field; names that fill the whole header block.
- Ustar.Iterator.Read: entries that end below 4 GiB; past that the 32-bit position of a block wraps.
- Ustar.FindFile: archives whose entries end below 4 GiB; past that the walk can return to earlier blocks (`UstarModel.WrapHazard`).
- UstarModel.WalkExact: holds for archives below 4 GiB whose entries end below 4 GiB; `NextExactIff` says what happens otherwise.
- Flags.AddWithCarry: takes the parity flag as even parity of the low byte; the eight-word table that the emulator looks it up in is not modelled.
- The rest of the emulator, `__aeabi_uidiv` and its relatives, the ARM and Linux ports, drivers, system calls, the virtual file system and DevFS.
- Division.Div: takes the negation of the minimum value to wrap around, which C++ leaves undefined.
- C++ iterator copying, destructors, `errno` and the clock.
