# soRTOS verification

A Dafny model of the soRTOS kernel core, with proofs. It covers the TLSF heap, the fair
scheduler, the blocking primitives (queue, semaphore, mutex, event group), the timer service,
the command line editor and the I2C timing search. Every spinlock section is one atomic step
on one CPU. `dafny verify dfyconfig.toml` checks everything.

## How it is organised

- `Common` holds what several parts share; `WaitList` is the linked FIFO list of waiters.
- `Tlsf*`: `TlsfMapping` (bucket indices), `TlsfLists` (doubly linked free lists), `TlsfBlocks`
  (bitmaps, physical layout, byte tallies), `TlsfState` and `TlsfSteps` (the invariant and the
  block operations on values), `TlsfOps` (allocate, release, resize), `TlsfHeap` (class `Heap`,
  which rewrites memory in place), `TlsfLayout`, `TlsfIntegrity` and `TlsfExact` (the integrity
  checker, and what its answer is worth) and `TlsfSession` (all runs). Memory is a sequence of words indexed by address; the word size is 4 or 8.
- `Sched*`: `SchedModel` is the scheduler as a state machine (`Enabled`, `Apply`, `Run`),
  `SchedEffects` says what each step does, `SchedInvariants`, `SchedFairness`, `SchedIdle`,
  `SchedTime` and `SchedShare` prove properties of its runs,
  `SchedHeap` is the array heap, and `SchedKernel` and `SchedTasks` hold class `Scheduler`,
  whose methods take steps of the machine. Its ghost `trace` is the run taken so far.
- `Queue`, `Semaphore`, `Mutex`, `EventGroup`, `Timers`, `Cli`, `I2cTiming`: one file each, and
  `QueueSession` and `TimerSession` for all runs on one queue and one timer service, and
  `CliKeys` for what the keys do. A
  method of a blocking primitive is one round of the source's retry loop; ghost sets record the
  tasks that were woken and have not retried yet.

Virtual runtimes and expiry ticks are kept both as the words the code compares (64 and 32 bits,
wrapping) and, as ghosts, as plain integers. `Scheduler` methods that compare require `Spread`:
compared virtual runtimes are within 2^63. `SchedKernel.SpreadFor` shows that this holds for the
first 4.6 * 10^15 context switches, and `SchedKernel.SpreadNeverIdle` that it holds across a wrap
while idle does not run.

## Where the code differs from what one might expect

- `event_group_set_bits` is documented to return the bits at the time the call returns. It
  returns the bits before waiters took theirs away. The two agree exactly when no waiter with
  EVENT_CLEAR_ON_EXIT was satisfied (`EventGroup.PassUnchanged`, `EventGroup.EventGroup.Set`);
  `EventGroup.StaleResult` is an input on which they differ.
- A waiter that finds its bits at once is told the bits before it clears them; one that was
  queued is told the bits after. The two agree exactly when it does not clear or takes nothing
  (`EventGroup.SameToldIff`).
- A wait with timeout zero that fails leaves the caller on the wait list (`EventGroup.EventGroup.Poll`).
- `allocator_malloc` checks that adding the header does not overflow, but not that rounding up
  does not (`TlsfHeap.MallocSizeCoversIff`, `TlsfHeap.MallocSizeWraps`). `allocator_realloc`
  checks neither (`TlsfHeap.ReallocSizeCoversIff`, `TlsfHeap.ReallocSizeWraps`).
- Requests above 2^30 - 2^24 bytes get a search index outside the tables
  (`TlsfMapping.SearchInTableIff`). `Servable` excludes these and the sizes whose rounding
  overflows, and nothing else (`TlsfHeap.ServableIff`).
- A heap that passes `allocator_check_integrity` may still be broken: the first-level bitmap is
  not looked at (`TlsfExact.ClearedBitmapPasses`), nor whether a node on a list is a block.
  Nothing else is missed (`TlsfExact.ExplainedIff`).
- The I2C fallback words are short of the high times the code itself asks for
  (`I2cTiming.FallbackIsShort`).
- The bound of 2000 on the spread of virtual runtimes fails in runs where idle gets the CPU:
  `SchedIdle.ApartRun` ends 4000 apart. `SchedIdle.TightIff` says exactly in which runs it holds.
- A character typed into a full line draws an error message, after which the terminal no longer
  shows the line although it is still there (`Cli.AlwaysShowsIff`, `Cli.FullLineHidden`).
- A semaphore initialised above its cap stays above it until tokens are taken, and a signal at
  the cap adds no token although it wakes a waiter (`Semaphore.Semaphore.Signal`).
- The preemption test at the end of `scheduler_tick` never fires
  (`SchedTasks.Scheduler.Preempt`, used by `Tick`).

## Model

| member | source | states |
|---|---|---|
| `TlsfMapping.CalcInTable` | kernel/src/allocator.c:84-108 | every size below 2^30 has a bucket inside the index tables, for 4- and 8-byte words |
| `TlsfMapping.CalcMonotone` | kernel/src/allocator.c:84-108 | a bigger block never lands in an earlier bucket, also across the small-block branch |
| `TlsfMapping.SearchSound` | kernel/src/allocator.c:84-125 | every aligned block in a bucket at or after the search index is at least as big as the request, also when rounding carries into the next first level |
| `TlsfMapping.SearchComplete` | kernel/src/allocator.c:84-125 | every block in an earlier bucket is smaller than 33/32 of the request |
| `TlsfMapping.SameOrEarlier` | kernel/src/allocator.c:84-108 | a block whose bucket is not after that of another is smaller than 33/32 of it |
| `TlsfMapping.SearchInTableIff` | kernel/src/allocator.c:111-125 | the search index is inside the tables exactly for requests up to 2^30 - 2^24 |
| `TlsfMapping.SearchPastTable` | kernel/src/allocator.c:111-125 | a request just past that limit gets an index outside the tables |
| `TlsfLists.InsertKeepsLinks` | kernel/src/allocator.c:128-144 | pushing a block on its list keeps all forward, backward and head links right |
| `TlsfLists.RemoveKeepsLinks` | kernel/src/allocator.c:147-168 | unlinking a block from the head, middle or end of its list keeps all other links right |
| `TlsfLists.ListIsBucket` | kernel/src/allocator.c:128-168 | following the links of a list meets exactly the free blocks of that bucket, each once, newest first |
| `TlsfBitmaps.SetKeepsIndex` | kernel/src/allocator.c:139-143 | after an insertion a list is non-empty exactly when its bit is set in both bitmap levels |
| `TlsfBitmaps.ClearKeepsIndex` | kernel/src/allocator.c:161-167 | after a removal the same holds, with the first-level bit cleared exactly when its whole row is |
| `TlsfBlocks.BytesConserved` | kernel/src/allocator.c:60-66 | free bytes, used bytes and headers of the blocks up to any boundary add up to the distance from the heap start |
| `TlsfState.MergePrevQuiet` | kernel/src/allocator.c:171-195 | merging with a free predecessor keeps the layout, the lists, the live blocks and their payloads, and the exact counters |
| `TlsfState.MergeNextQuiet` | kernel/src/allocator.c:198-221 | merging with a free successor does too, and leaves no two free neighbours |
| `TlsfSteps.MergePrevKeeps` | kernel/src/allocator.c:171-195 | block_merge_prev in both cases: the result is the only block that may still have a free neighbour |
| `TlsfSteps.SettleKeeps` | kernel/src/allocator.c:198-221 | merging forward and listing a loose free block restores the full list and coalescing invariants |
| `TlsfSteps.LocateFirst` | kernel/src/allocator.c:252-272 | the two bitmap scans give the first non-empty bucket at or after the start, or none exactly when all are empty |
| `TlsfSteps.LocateFits` | kernel/src/allocator.c:252-272 | the block at the head of the bucket found is free, listed and big enough |
| `TlsfSteps.LocateComplete` | kernel/src/allocator.c:252-272 | if nothing is found every free block is smaller than 33/32 of the request |
| `TlsfSteps.LocateGoodFit` | kernel/src/allocator.c:252-272 | the head of the first non-empty list is a good fit: any other free block is either below 33/32 of the request and in a list before the search index, or in a later list, or in the same list and put there earlier; and in the last two cases the block taken is below 33/32 of it |
| `TlsfSteps.HeadIsNewest` | kernel/src/allocator.c:128-144 | of the blocks in a list the head is the one inserted last |
| `TlsfSteps.TrimKeeps` | kernel/src/allocator.c:224-249 | splitting off the rest of a block keeps every other live block, all payload bytes, and the counters up to the block's own share |
| `TlsfOps.MallocKeeps` | kernel/src/allocator.c:310-349 | allocation keeps the whole heap invariant, touches no other live payload, and gives a block of the requested size plus less than a minimal block |
| `TlsfOps.FreeKeeps` | kernel/src/allocator.c:352-376 | release keeps the whole heap invariant and every other live block with its payload |
| `TlsfOps.ShrinkKeeps` | kernel/src/allocator.c:397-407 | shrinking in place keeps the invariant, the remaining payload and everybody else |
| `TlsfOps.GrowKeeps` | kernel/src/allocator.c:409-441 | growing into the free successor keeps the invariant, the whole payload and everybody else |
| `TlsfOps.MoveKeeps` | kernel/src/allocator.c:443-452 | allocate, copy and release together move the whole payload and change nobody else |
| `TlsfOps.CopyKeeps` | kernel/src/allocator.c:443-452 | copying into a live block word by word keeps the invariant and every other live payload |
| `TlsfOps.PayloadsDisjoint` | kernel/src/allocator.c:310-349 | live payloads lie inside the heap and are pairwise disjoint |
| `TlsfOps.HeaderBytesApart` | kernel/src/allocator.c:27-45 | every byte of the header words of a block, and of the link words of a free one, lies inside that block and in no live payload |
| `TlsfOps.CapacityConserved` | kernel/src/allocator.c:60-66 | free memory, used memory and one header per counted block always add up to the heap size |
| `TlsfOps.AllFreed` | kernel/src/allocator.c:352-376 | with nothing live the heap is one free block and the counters are those of a fresh heap |
| `TlsfHeap.MallocSizeCoversIff` | kernel/src/allocator.c:311-321 | malloc refuses exactly the empty request and those that overflow with the header added; of the others the size it searches for covers the request exactly when rounding up does not overflow, and is zero when it does |
| `TlsfHeap.MallocSizeWraps` | kernel/src/allocator.c:316-321 | a 32-bit request of 0xFFFFFFF2 bytes passes the overflow check and is searched for as size zero |
| `TlsfHeap.ServableIff` | kernel/src/allocator.c:311-325 | of the requests that are not refused, the servable ones are exactly those whose computed size covers them and has a search index inside the tables |
| `TlsfHeap.BlockSizeLeast` | kernel/src/allocator.c:311-321 | the block size used is the least multiple of 8 that holds the header and the request and is at least a minimal block |
| `TlsfHeap.ReallocSizeCoversIff` | kernel/src/allocator.c:390-395 | the block size realloc computes covers the request exactly when rounding it up does not overflow, and is then the size malloc would use |
| `TlsfHeap.ReallocSizeWraps` | kernel/src/allocator.c:390-395 | a resize to the largest 32-bit size is computed as the smallest block |
| `TlsfHeap.Heap.constructor` | kernel/src/allocator.c:275-306 | init satisfies the heap invariant with a single free block |
| `TlsfHeap.Heap.BlockInsert` | kernel/src/allocator.c:128-144 | the in-place insertion is the list, bitmap and link update the invariant lemmas speak about |
| `TlsfHeap.Heap.BlockRemove` | kernel/src/allocator.c:147-168 | the in-place removal likewise, in all four neighbour cases |
| `TlsfHeap.Heap.BlockMergePrev` | kernel/src/allocator.c:171-195 | in-place merge with the predecessor, both cases |
| `TlsfHeap.Heap.BlockMergeNext` | kernel/src/allocator.c:198-221 | in-place merge with the successor, both cases |
| `TlsfHeap.Heap.BlockTrim` | kernel/src/allocator.c:224-249 | in-place split, merge and relisting of the rest |
| `TlsfHeap.Heap.LocateFree` | kernel/src/allocator.c:252-272 | the block returned is free, listed and big enough, is the newest of its list, and all lists from the search index up to its own are empty; NULL exactly if every list from the search index on is empty |
| `TlsfHeap.Heap.Malloc` | kernel/src/allocator.c:310-349 | on every valid heap: NULL changes nothing and only when no free block reaches 33/32 of the block size; else one new live block of the right size at the start of a free block that is a good fit, everybody else untouched |
| `TlsfHeap.Heap.Free` | kernel/src/allocator.c:352-376 | on every valid heap: exactly that block stops being live, everybody else is untouched, the invariant holds |
| `TlsfHeap.Heap.Realloc` | kernel/src/allocator.c:379-452 | in place exactly when the block alone or with a free successor has room, keeping the payload both sizes share; else moved with its whole payload; else nothing changes; never another live byte |
| `TlsfHeap.Heap.Shrink` | kernel/src/allocator.c:397-407 | the rest is given back exactly when it can be a block; payload and others kept |
| `TlsfHeap.Heap.Extend` | kernel/src/allocator.c:409-441 | the block takes over its free successor, then gives back what is too much |
| `TlsfHeap.Heap.Move` | kernel/src/allocator.c:443-452 | the third case of realloc: the new block is a good fit, refused exactly as an allocation is |
| `TlsfHeap.Heap.CopyPayload` | kernel/src/allocator.c:443-452 | the loop copies the payload and nothing else |
| `TlsfLayout.PhysicalWalk` | kernel/src/allocator.c:509-590 | on any heap the walk ends; it ends with 0 exactly when the headers spell a layout: a tiling, aligned, with back pointers right and no two free neighbours; and it recomputes all four counters exactly |
| `TlsfIntegrity.WalkList` | kernel/src/allocator.c:598-645 | on any heap the walk of one list ends, because the back links tell nodes apart; with 0 exactly when the links spell a list of free nodes of that bucket and its bit is right; and it counts the nodes |
| `TlsfIntegrity.LogicalWalk` | kernel/src/allocator.c:592-647 | 0 exactly when this holds of all lists, with the number of nodes on them all |
| `TlsfIntegrity.CheckIntegrity` | kernel/src/allocator.c:502-666 | on any heap whose list heads point into it: 0 exactly when layout, lists, counters and list total are right, and which class of error codes stands for which of them |
| `TlsfLayout.OneLayout` | kernel/src/allocator.c:509-590 | a memory has at most one layout |
| `TlsfIntegrity.Bounded` | kernel/src/allocator.c:617-645 | nodes that pass the tests are pairwise different, so no list is endless |
| `TlsfExact.ValidPasses` | kernel/src/allocator.c:502-666 | every heap that satisfies the invariant passes all tests |
| `TlsfExact.ExplainedIff` | kernel/src/allocator.c:502-666 | the heap invariant holds, for some blocks and lists, if and only if the checker returns 0, the first-level bitmap agrees with the second, and every node on a list is a block |
| `TlsfExact.ClearedBitmapPasses` | kernel/src/allocator.c:592-612 | a valid heap with a free block and its first-level bitmap cleared still passes, and no longer satisfies the invariant |
| `TlsfExact.CheckValid` | kernel/src/allocator.c:502-666 | the checker returns 0 on every valid heap |
| `TlsfSession.Serve` | kernel/src/allocator.c:310-452 | any legal request keeps the invariant and the set of live pointers in step with what the client holds |
| `TlsfSession.Session` | kernel/src/allocator.c:310-452 | over every list of requests every integrity check returns 0, and releasing what is held leaves one free block and exact counters |
| `SchedInvariants.InvAlways` | kernel/src/scheduler.c:325-1099 | after every legal run: READY tasks are exactly the heap, SLEEPING tasks exactly the sleep list, only the current task is RUNNING, every slot is in exactly one of free, zombie or live, the count is live plus zombie, live IDs are distinct and are exactly the set bits, and the sleep list is sorted |
| `SchedInvariants.QueuesKept` | kernel/src/scheduler.c:232-271 | every step keeps task states and queues in agreement |
| `SchedInvariants.PoolKept` | kernel/src/scheduler.c:325-395 | every step keeps the pool accounts and the ID bitmap |
| `SchedInvariants.SleepKept` | kernel/src/scheduler.c:186-251 | every step keeps the sleep list sorted by wake-up tick |
| `SchedInvariants.IdleOnlyWhenNobodyReady` | kernel/src/scheduler.c:807-839 | after a switch the current task is RUNNING, and it is idle exactly when no user task was READY |
| `SchedEffects.Creates` | kernel/src/scheduler.c:527-593 | a created task was not live, is READY at the minimum with a full slice and an unused ID, and nobody else notices |
| `SchedEffects.Kills` | kernel/src/scheduler.c:348-395 | a task that exits or is deleted is live no more, in no queue, with its ID free and its slot among the zombies, and nobody else notices |
| `SchedEffects.Wakes` | kernel/src/scheduler.c:232-271 | a woken task is READY, off the sleep list, not behind the minimum and otherwise unchanged, and nobody else notices |
| `SchedEffects.Blocks` | kernel/src/scheduler.c:889-909 | a blocked task is in no queue and otherwise unchanged, and nobody else notices |
| `SchedEffects.Sleeps` | kernel/src/scheduler.c:943-974 | the current task is SLEEPING until the given tick, on the sleep list only, and nobody else notices |
| `SchedEffects.TicksDown` | kernel/src/scheduler.c:1070-1082 | a tick takes one off the slice of the running task, down to zero, and changes nothing else |
| `SchedEffects.Leaves` | kernel/src/scheduler.c:779-805 | a RUNNING user task that leaves the CPU is READY with a full slice and more virtual runtime; nobody else's virtual runtime or slice changes |
| `SchedEffects.Takes` | kernel/src/scheduler.c:807-839 | the task taken has the least virtual runtime of all READY ones, or is idle and there are none; nobody else's state changes |
| `SchedEffects.Collects` | kernel/src/scheduler.c:325-345 | the oldest zombie slot becomes free, the count drops by one, and no live task notices |
| `SchedInvariants.FreeSlotHasFreeId` | kernel/src/scheduler.c:527-547 | a free slot implies a free ID, by counting |
| `SchedInvariants.CountIs` | kernel/src/scheduler.c:325-345 | the task count is the number of live tasks plus the number of zombies |
| `SchedFairness.ChargeRange` | kernel/src/scheduler.c:786-799 | each charge is between 3 and 2000, and exactly 2000 after a full slice; what it is in between is stated by SchedTime.FollowsCpuTime |
| `SchedTime.FollowsCpuTime` | kernel/src/scheduler.c:779-805 | over every legal run in which a task stays a live user task, its weight times what its virtual runtime gained, apart from wake-ups, is 1000 times the ticks it has paid for, less at most weight - 1 a turn; a turn without a tick counts as one |
| `SchedTime.RaisedTo` | kernel/src/scheduler.c:254-271 | a wake-up raises a task to the minimum and only if it is behind |
| `SchedFairness.MinimumAlways` | kernel/src/scheduler.c:178-183 | after every legal run no READY task has less virtual runtime than the current user task |
| `SchedFairness.NarrowAlways` | kernel/src/scheduler.c:761-839 | after every legal run that never dispatches idle no live task is more than 2000 ahead of the current one |
| `SchedFairness.SpreadAlways` | kernel/src/scheduler.c:761-839 | over every run that never dispatches idle, runnable virtual runtimes are within 2000 of each other and the running task holds the minimum |
| `SchedIdle.TightKept` | kernel/src/scheduler.c:761-839 | any step but a wake-up keeps runnable virtual runtimes within 2000 of each other, with or without idle |
| `SchedIdle.WakeTightIff` | kernel/src/scheduler.c:232-271 | a wake-up keeps them so if and only if nobody else is runnable or the woken task is at most 2000 ahead of the running user task (of the minimum read, if none runs) |
| `SchedIdle.TightIff` | kernel/src/scheduler.c:232-839 | over every legal run, idle included, runnable virtual runtimes are within 2000 of each other throughout if and only if every woken task met that condition |
| `SchedIdle.NeverIdleFits` | kernel/src/scheduler.c:232-839 | in a run that never dispatches idle every woken task meets it |
| `SchedIdle.ApartRun` | kernel/src/scheduler.c:232-839 | a legal run of 17 steps from the initial state, with two tasks woken from idle, that ends with two READY tasks 4000 apart |
| `SchedFairness.VruntimeLtIsOrder` | kernel/src/scheduler.c:11-11 | the wrapped 64-bit comparison is the true order of numbers less than 2^63 apart |
| `SchedFairness.WrapSafe` | kernel/src/scheduler.c:11-11 | over every run that never dispatches idle the wrapped comparison orders the runnable tasks truly |
| `SchedShare.StarvationBound` | kernel/src/scheduler.c:780-816 | with tasks leaving the CPU only by preemption or yield, a READY task is dispatched after at most 667 dispatches per other runnable task |
| `SchedShare.ProportionalShare` | kernel/src/scheduler.c:780-816 | from a level start with full slices completed turns differ by at most one, and CPU ticks follow the weights to within one slice |
| `SchedHeap.RootIsMinimum` | kernel/src/scheduler.c:139-154 | the root of an ordered heap is a minimum |
| `SchedHeap.RoomFor` | kernel/src/scheduler.c:127-136 | a task outside the heap leaves room for it, so the full-heap branch is dead |
| `SchedHeap.ReadyHeap.HeapUp` | kernel/src/scheduler.c:89-99 | sift-up keeps index tracking and members and leaves only a downward defect at its start |
| `SchedHeap.ReadyHeap.HeapDown` | kernel/src/scheduler.c:102-124 | sift-down terminates with heap order, index tracking and the same members |
| `SchedHeap.ReadyHeap.Insert` | kernel/src/scheduler.c:127-136 | insertion adds exactly the task and keeps heap order and index tracking |
| `SchedHeap.ReadyHeap.PopMin` | kernel/src/scheduler.c:139-154 | pop returns and removes a minimum, NULL exactly when empty |
| `SchedHeap.ReadyHeap.Remove` | kernel/src/scheduler.c:157-175 | removal from the middle takes out exactly the task and keeps heap order and index tracking |
| `SchedKernel.SpreadFor` | kernel/src/scheduler.c:11-11 | every state reached in fewer than 4.6 * 10^15 context switches keeps compared virtual runtimes in the 2^63 window |
| `SchedKernel.SpreadNeverIdle` | kernel/src/scheduler.c:11-11 | in runs that never dispatch idle the window holds however large virtual runtimes get, as long as no task waits while the current one gains nearly 2^63 |
| `SchedKernel.RemoveFromList` | kernel/src/scheduler.c:186-209 | the walk removes exactly the task from a duplicate-free list |
| `SchedKernel.SleepPosition` | kernel/src/scheduler.c:212-230 | the walk stops where all before wake no later and all after no earlier |
| `SchedTasks.Scheduler.constructor` | kernel/src/scheduler.c:398-417 | init is the first state of every run |
| `SchedTasks.Scheduler.IsRun` | kernel/src/scheduler.c:398-1099 | every valid scheduler object is the end of a legal run, so every theorem about runs holds of it |
| `SchedTasks.Scheduler.MinVruntime` | kernel/src/scheduler.c:178-183 | the value read is the minimum of the heap, or the current task's, or zero |
| `SchedTasks.Scheduler.WakeTask` | kernel/src/scheduler.c:232-271 | waking is one step of the machine: off the sleep list, READY, raised to the minimum, in the heap |
| `SchedTasks.Scheduler.ChargeCurrent` | kernel/src/scheduler.c:779-805 | the task leaving the CPU is charged in wrapping words by the amount SchedTime.FollowsCpuTime is about, refilled and queued; idle is not |
| `SchedTasks.Scheduler.ScheduleNext` | kernel/src/scheduler.c:761-839 | one switch step from any reachable state; the fallback and the panic are never reached once idle exists |
| `SchedTasks.Scheduler.Start` | kernel/src/scheduler.c:420-454 | panics exactly when idle has to be created and cannot; else a task runs, idle only if nothing is READY |
| `SchedTasks.Scheduler.ProcessSleepList` | kernel/src/scheduler.c:242-251 | looking only at the list head makes READY exactly the sleepers whose tick has come and changes nobody else |
| `SchedTasks.Scheduler.Tick` | kernel/src/scheduler.c:1060-1099 | as above; the running user task loses one tick of its slice and nobody else anything; a reschedule is asked for exactly when that slice is used up or idle runs beside a READY task: the preemption test never fires |
| `SchedTasks.Scheduler.Block` | kernel/src/scheduler.c:889-909 | one block step, or nothing for idle and unused slots |
| `SchedTasks.Scheduler.Unblock` | kernel/src/scheduler.c:912-925 | one wake step exactly for BLOCKED and SLEEPING tasks |
| `SchedTasks.Scheduler.SleepTicks` | kernel/src/scheduler.c:943-974 | one sleep step at the sorted place, refused exactly for zero ticks, no task or idle |
| `SchedTasks.Scheduler.CollectAll` | kernel/src/scheduler.c:325-345 | every zombie slot becomes free and nothing else changes |
| `SchedTasks.Scheduler.DeleteTask` | kernel/src/scheduler.c:348-395 | a live task that is neither idle nor current leaves heap and sleep list and becomes a zombie, giving its ID back |
| `SchedTasks.Scheduler.Delete` | kernel/src/scheduler.c:707-730 | the current task exits; of the others an unknown ID or idle fails and changes nothing, any other task becomes a zombie |
| `SchedTasks.Scheduler.ExitTask` | kernel/src/scheduler.c:733-752 | one exit step |
| `SchedTasks.Scheduler.FirstFreeId` | kernel/src/scheduler.c:527-535 | the least free ID, or 0 exactly when all are taken |
| `SchedTasks.Scheduler.TakeSlot` | kernel/src/scheduler.c:472-512 | a slot and a stack are obtained, with collection and one retry, exactly when a slot is free or reclaimable and one allocation succeeds |
| `SchedTasks.Scheduler.CreateTask` | kernel/src/scheduler.c:457-593 | fails exactly for bad arguments, no free or reclaimable slot, or two failed allocations, never for want of an ID; else a READY task in a slot that held no live one, all live tasks unchanged |
| `SchedTasks.Scheduler.CreateIdle` | kernel/src/scheduler.c:295-322 | idle is created, marked and taken out of the heap, or the system panics exactly when creation fails |
| `Queue.ItemsWrite` | kernel/src/queue.c:240-252 | writing items from the tail on appends them to the contents, wherever they wrap |
| `Queue.WriteAllAt` | kernel/src/queue.c:240-252 | each cell after writing item by item holds the item that fell on it, or what it held |
| `Queue.Queue.NeverStuck` | kernel/src/queue.c:148-383 | a sender and a receiver are never both blocked with nobody woken; with nobody woken, blocked receivers mean empty and blocked senders mean full |
| `Queue.Queue.constructor` | kernel/src/queue.c:86-125 | an empty queue with nobody waiting |
| `Queue.Queue.Push` | kernel/src/queue.c:148-202 | each round puts the item in and wakes the oldest receiver, or queues the task; items popped followed by contents always equal items pushed, and nobody is stranded |
| `Queue.Queue.Pop` | kernel/src/queue.c:274-319 | each round takes the oldest item and wakes the oldest sender, or queues the task; same invariants |
| `Queue.Queue.PushArr` | kernel/src/queue.c:205-271 | each round writes as much as fits and wakes one receiver for each item while there are any; same invariants |
| `Queue.Queue.WriteChunk` | kernel/src/queue.c:240-254 | the one- or two-part copy leaves buffer, tail and count as pushing item by item does |
| `Queue.Queue.PushFromIsr` | kernel/src/queue.c:322-354 | never blocks, fails exactly when full; same invariants |
| `Queue.Queue.PopFromIsr` | kernel/src/queue.c:357-383 | never blocks, fails exactly when empty; same invariants |
| `Queue.Queue.Peek` | kernel/src/queue.c:386-404 | the oldest item, without change |
| `Queue.Queue.Reset` | kernel/src/queue.c:407-423 | what was queued is dropped, every sender is woken, everybody stays accounted for; same invariants |
| `QueueSession.RunRound` | kernel/src/queue.c:148-319 | a round of whatever call a task is in puts in as much as fits or takes one item, and the call returns exactly when it has nothing left to do; what any caller has put in followed by what it has left stays the same |
| `QueueSession.Step` | kernel/src/queue.c:148-423 | any event (a call, a round, an interrupt, a reset) changes what a task has put in plus what it has left only by what a new call of that task asks for |
| `QueueSession.Session` | kernel/src/queue.c:148-423 | over every interleaving of callers, interrupts and resets, what a caller puts in during a queue_push_arr call is a front part of its data in order, and all of it once the call has returned |
| `QueueSession.SomebodyRuns` | kernel/src/queue.c:148-319 | with one task sending and one receiving, some caller is not blocked |
| `WaitList.WaitList.Add` | kernel/src/queue.c:33-42 | appends at the tail, with head, tail and links consistent |
| `WaitList.WaitList.PopFirst` | kernel/src/queue.c:45-59 | takes the oldest, with head, tail and links consistent |
| `WaitList.WaitList.Remove` | kernel/src/queue.c:62-83 | takes out exactly the task, or nothing, keeping the order of the rest and head and tail consistent |
| `Semaphore.Semaphore.constructor` | kernel/src/semaphore.c:36-42 | the count is within the cap exactly when the initial value is |
| `Semaphore.Semaphore.NeverStuck` | kernel/src/semaphore.c:45-93 | a blocked waiter with nobody woken means no token; the count respects the cap if the initial value does |
| `Semaphore.Semaphore.Wait` | kernel/src/semaphore.c:45-75 | each round takes a token or queues the task; tokens are conserved and queued waiters mean every token is spoken for |
| `Semaphore.Semaphore.Signal` | kernel/src/semaphore.c:78-93 | wakes the oldest waiter and adds a token unless at the cap; same invariants |
| `Semaphore.Semaphore.Broadcast` | kernel/src/semaphore.c:96-115 | wakes everybody, with a token each up to the cap; same invariants |
| `Mutex.OkAlways` | kernel/src/mutex.c:60-140 | over all runs: a free mutex has no waiters, the owner weighs exactly the maximum of its base weight and its waiters', everybody else is at base weight |
| `Mutex.NoBarging` | kernel/src/mutex.c:106-140 | the waiter at place k is at place k - n after n owner unlocks and is not the owner before the unlock number k + 1 |
| `Mutex.HandedOver` | kernel/src/mutex.c:119-133 | that unlock makes it the owner |
| `Mutex.GetsInAfter` | kernel/src/mutex.c:60-140 | a task that asks for the mutex, whatever happens then, owns it exactly from a given number of unlocks on until the next: none if it is free or its own, else one more than there are waiters |
| `Mutex.HeaviestIs` | kernel/src/mutex.c:36-49 | the maximum scan result bounds all waiter weights and is one of them |
| `Mutex.Mutex.MaxWaiterWeight` | kernel/src/mutex.c:36-49 | the list walk computes that maximum |
| `Mutex.Mutex.Lock` | kernel/src/mutex.c:60-103 | held exactly when the mutex was free or the caller's own, and the caller is then the owner; else the owner stays, is boosted to the caller's weight if that is more, and the caller is last in line; the invariant holds |
| `Mutex.Mutex.Unlock` | kernel/src/mutex.c:106-140 | a caller that is not the owner changes nothing; the owner goes back to its base weight and hands over to the first waiter, or frees the mutex if there is none; the invariant holds |
| `EventGroup.PassSettles` | kernel/src/event_group.c:51-103 | after a wake pass no waiter left on the list is satisfied by the bits left |
| `EventGroup.PassSplits` | kernel/src/event_group.c:51-103 | those kept and those woken make up the list, each in its order |
| `EventGroup.WokenAtTurn` | kernel/src/event_group.c:51-103 | exactly the waiters satisfied at their turn, by what those before them left, are woken |
| `EventGroup.WokenExactly` | kernel/src/event_group.c:51-103 | in bits: a WAIT_ALL waiter is woken exactly if each of its bits is set at its turn, a WAIT_ANY waiter exactly if one is; whoever stays misses one, or all, of its bits among those left |
| `EventGroup.BitLeft` | kernel/src/event_group.c:90-93 | a bit is left after a pass exactly if it was set and no woken waiter that clears bits had asked for it |
| `EventGroup.ToldAtTurn` | kernel/src/event_group.c:95-97 | a woken waiter is told the bits as they are once it has taken its own |
| `EventGroup.EventGroup.QueuedMisses` | kernel/src/event_group.c:51-103 | in every valid state whoever is queued misses one, or all, of its bits |
| `EventGroup.PassUnchanged` | kernel/src/event_group.c:136-147 | a pass leaves the bits as they were exactly when no clearing waiter was satisfied by them to begin with |
| `EventGroup.EventGroup.Walk` | kernel/src/event_group.c:51-103 | the walk that unlinks in place does exactly one such pass, with head and tail consistent |
| `EventGroup.EventGroup.Set` | kernel/src/event_group.c:136-162 | returns the bits before the pass; these are the bits on return exactly when no clearing waiter was satisfied; no queued waiter is satisfied afterwards |
| `EventGroup.EventGroup.Clear` | kernel/src/event_group.c:165-173 | clears the bits; no queued waiter is satisfied afterwards |
| `EventGroup.EventGroup.StartWait` | kernel/src/event_group.c:192-230 | an immediate result exactly if all, or any, of the bits asked for are set, and the bits left are those not taken; else the task is queued last; no queued waiter is satisfied afterwards |
| `EventGroup.EventGroup.EndWait` | kernel/src/event_group.c:239-254 | the stored result if woken by the pass, else nothing and off the list with the order kept |
| `EventGroup.SameToldIff` | kernel/src/event_group.c:90-97 | what a waiter is told when queued is what it would have been told at once exactly when it does not clear bits or takes none |
| `EventGroup.StaleResult` | kernel/src/event_group.c:136-147 | with one clearing waiter for bit 0, setting bit 0 returns {0} and leaves no bit set |
| `EventGroup.EventGroup.Poll` | kernel/src/event_group.c:192-225 | with timeout zero the current bits are returned; a task that did not find its bits is left on the wait list |
| `Timers.EarlierIsOrder` | kernel/src/timer.c:29-42 | the wrapping comparison is the true order of ticks less than 2^31 apart |
| `Timers.DueExactly` | kernel/src/timer.c:58-103 | in a sorted list the expired timers are exactly the leading ones |
| `Timers.PlaceKeeps` | kernel/src/timer.c:29-42 | insertion after all that expire no later keeps the list sorted and duplicate-free |
| `Timers.TimerService.Insert` | kernel/src/timer.c:29-42 | the loop inserts at exactly that place, across tick wrap-around |
| `Timers.TimerService.Start` | kernel/src/timer.c:158-188 | active, due one period from now, at its sorted place, with head reported exactly; no period or reload flag changes, and no other timer |
| `Timers.TimerService.Stop` | kernel/src/timer.c:191-205 | inactive and off the list; no period or reload flag changes, and no other timer |
| `Timers.TimerService.CheckExpiries` | kernel/src/timer.c:58-103 | terminates; fires exactly the expired timers once each in list order, re-arms periodic ones, leaves all others alone, and returns the exact positive distance to the next expiry; no period or reload flag changes |
| `TimerSession.Session` | kernel/src/timer.c:58-101 | over every run of starts, stops, creations, checks and time passing, a timer nobody starts or stops fires at exactly the checks at which a timer on its own would, whatever the others do |
| `TimerSession.Watch` | kernel/src/timer.c:58-101 | a timer is started and left alone and the expiries are checked at every tick: a periodic one fires at exactly start + p, start + 2p, ... and is always active; a one-shot one fires once, at start + p |
| `TimerSession.Periodic` | kernel/src/timer.c:76-81 | checked at every tick, the firing times of a periodic timer are the multiples of its period from its start |
| `TimerSession.OneShot` | kernel/src/timer.c:70-75 | checked at every tick, a one-shot timer fires once and is inactive from then on |
| `Cli.AlwaysShowsIff` | kernel/src/cli.c:402-491 | for every sequence of keys, submitted lines included, a terminal fed the bytes sent back shows exactly the line with the cursor in its place throughout if and only if no key is typed into a full line |
| `Cli.StepShowsIff` | kernel/src/cli.c:402-491 | after one key the terminal shows the line if and only if the key did not overflow it |
| `Cli.FullLineHidden` | kernel/src/cli.c:488-490 | one more character typed into a line of 127 leaves the terminal not showing the line |
| `Cli.TypeShows` | kernel/src/cli.c:459-487 | the bytes echoed for a typed character redraw the rest of the line and move back |
| `Cli.EraseShows` | kernel/src/cli.c:436-458 | the bytes echoed for a backspace redraw the rest, blank the last cell and move back |
| `Cli.LineEditor.Key` | kernel/src/cli.c:402-491 | each key does to the buffer what it does to a left/right zipper, stays within 128 bytes, and echoes exactly the specified bytes; a submitted line is the whole text |
| `Cli.LineEditor.Type` | kernel/src/cli.c:459-487 | insertion in the middle or at the end, in place |
| `Cli.LineEditor.Erase` | kernel/src/cli.c:436-458 | deletion before the cursor, in place |
| `Cli.LineEditor.Arrow` | kernel/src/cli.c:410-423 | the cursor moves exactly when there is room, with its echo |
| `Cli.LineEditor.Puts` | kernel/src/cli.c:449-449 | printing up to the terminator prints exactly the rest of the line |
| `CliKeys.Corrected` | kernel/src/cli.c:402-491 | typing a, b and d, going back over d, rubbing out b and typing c submits a, c and d and leaves an empty line |
| `CliKeys.Typing` | kernel/src/cli.c:459-487 | typing text puts it before the cursor |
| `CliKeys.GoingLeft` | kernel/src/cli.c:402-427 | arrows to the left take the cursor back over that many characters |
| `CliKeys.RightKey` | kernel/src/cli.c:416-421 | an arrow to the right undoes one to the left |
| `CliKeys.RubbingOut` | kernel/src/cli.c:436-458 | backspaces of either code rub out that many characters |
| `CliKeys.ArrowsStop` | kernel/src/cli.c:410-423 | arrows at the ends of the line and other escape sequences do nothing |
| `CliKeys.Ignored` | kernel/src/cli.c:436-460 | a backspace at the start and any other key do nothing |
| `I2cTiming.CeilDivLeast` | platform/stm32l476rg/drivers/i2c_hal.h:57-59 | the rounded-up quotient is the least number of units that covers the dividend |
| `I2cTiming.LastFits` | platform/stm32l476rg/drivers/i2c_hal.h:93-121 | the largest prescaler is enough exactly for clocks up to 772830188 Hz (standard) or 2560000000 Hz (fast) |
| `I2cTiming.CandidateMeets` | platform/stm32l476rg/drivers/i2c_hal.h:93-121 | the low time, high time, period and data setup of every candidate meet the minima of UM10204, section 6.1, in nanoseconds, and no count is bigger than it need be |
| `I2cTiming.RoundTrip` | platform/stm32l476rg/drivers/i2c_hal.h:117-119 | the packed fields do not overlap, read back unchanged, and are at bits 28, 20, 16, 8 and 0 |
| `I2cTiming.ComputeTiming` | platform/stm32l476rg/drivers/i2c_hal.h:61-125 | finds the least prescaler that fits, exactly for clocks from 1 Hz to that limit, with the decoded times meeting the minima; else the fallback word |
| `I2cTiming.FallbackIsShort` | platform/stm32l476rg/drivers/i2c_hal.h:80-82 | at 80 MHz the fallback words have high times of 3925 and 525 ns, below the minima the code itself uses |

## Left out

- Interrupt masking, spinlocks, more than one CPU and the context-switch assembly: each locked
  section is one atomic step.
- Stack memory of tasks: `task_create` takes the outcome of its two allocations as parameters;
  stack frames, canaries and `task_create_static` are not modelled.
- SchedTasks.Scheduler.Block: requires a task that is neither SLEEPING nor a zombie, because the source would leave a BLOCKED task on the sleep or zombie list.
- SchedTasks.Scheduler.Tick: requires that the tick counter has not wrapped and sleeps are below 2^31 ticks, because the sleep list compares ticks plainly.
- SchedTasks.Scheduler.ProcessSleepList: requires the same of the tick counter, for the same reason.
- SchedTasks.Scheduler.SleepTicks: requires a wake-up tick below 2^32, for the same reason.
- SchedTasks.Scheduler.Delete: does not model idle deleting its own ID, which would make idle exit and leave nothing to dispatch.
- TlsfHeap.Heap.Malloc: requires `Servable`, because other sizes index outside the tables or cut a block of size zero, and what then happens is not modelled.
- TlsfHeap.Heap.Realloc: requires `Servable` only of sizes that do not fit in place, for the same reason.
- TlsfOps.HeaderBytesApart: a store of a word changes one cell of the memory; that the other bytes of the word belong to no live payload either is stated by this lemma, not by the stores.
- TlsfIntegrity.CheckIntegrity: requires that the list heads point into the heap, because the source follows them unchecked; sizes that carry an address past the end of the address space are not modelled, and of the error codes only the class is stated.
- TimerSession.Session: checks are less than 2^30 ticks apart.
- SchedTasks.Scheduler.ScheduleNext: requires that idle exists; before that the source may read through a null pointer.
- Notification values, `task_notify_wait` and `task_set_state`: the wake they end in is `WakeTask`.
- Weight changes while a task holds part of a slice: the scheduler model has fixed weights, and
  the mutex model has weights but no time slices.
- The `next` links of the free, zombie, sleep and timer lists are modelled as sequences; index -1
  stands for a slot that was never in the heap. Each wait list has its own links, where the
  source keeps one wait node per task, which is on one list at a time.
- A task in a wait list being notified, deleted or unblocked by anybody but the object it waits on.
- Queue.Queue.Push: requires that the task is not on a list of this queue already, so the removal the source does first finds nothing.
- Item bytes: a queue item is one value; push callbacks, `queue_delete` and `event_group_delete`
  are not modelled.
- An event wait that is woken between queueing and going to sleep, or that begins while the task is still on the list from a failed wait with timeout zero.
- Timers.TimerService.CheckExpiries: assumes periods from 1 to 2^30 - 1, expiries within 2^30 ticks, a fixed tick, and callbacks that leave timers alone.
- Timer pool exhaustion, and the daemon task around `timer_check_expiries`.
- Cli.AlwaysShowsIff: assumes a printable prompt, commands whose output ends its row, and a row as wide as needed.
- Command lookup and output, the logger, console and application commands.
- `mempool.c`, the UART rings, and the GPIO, LED, DAC, ADC, DMA, PWM, RTC, flash, watchdog, clock and startup code.
- Unsigned words of an event group are sets of bit numbers; their width is not limited to 32.
