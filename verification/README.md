# Simplix kernel: models and proofs

Simplix is a small x86 kernel. This project models its algorithmic core in Dafny and proves that
it does what it is for, over every input, every call sequence and every reachable state.

* **Physical page allocator** (`kernel/physmem.c` over the ring macros of
  `include/simplix/list.h`). `BlockList` is the address-ordered list of blocks as a value;
  `BlockCalls` has first fit, splitting, coalescing and resizing on it. `Ring` proves the list
  macros on an array of nodes. `Descriptors` says when a descriptor array with its links represents
  a block list, also for the descriptors that are no longer linked. `BlockOps`, `PhysInit` and
  `PhysMem` prove the C operations, in place on that array, to refine the block list.
* **Memory of tasks** (`kernel/sys.c`, `kernel/task.c`, `include/simplix/segment.h`). `Segments`,
  `ProcessMemory` and `MemoryRuns`: fork, brk, exit, kernel threads, task switches and the allocator
  calls of the rest of the kernel, as a state machine and as an object whose history is always a run
  of it, to which every call adds its event. In every state of every run each task has its own pages.
* **User-level heap** (`lib/stdlib.c`). `FreeList` is the sorted, coalesced free list as a value;
  `Malloc` proves the circular list of headers in memory to refine it, over the sbrk and brk of
  `Break`, in 32 bits.
* **Life cycle and scheduling of tasks** (`kernel/task.c`, `kernel/sched.c`, `kernel/timer.c`).
  `Tasks` is a state machine with fork, exit, waitpid, sleep, tick and schedule; `Scheduler` has
  the election and its fairness; `TaskTable` has the loops over the global list, and a kernel
  object whose history is always a run of the state machine, to which every call adds its events.
* **Multiprecision arithmetic** (`kernel/main.c`). `BigReal` and `Arccot`: digit arrays in 32-bit
  arithmetic, and the arc cotangent series of the pi computation.
* **Byte ranges over block devices** (`kernel/blkdev.c`, `drivers/ramdisk.c`). `BlockDevice`, over
  the RAM disk driver (`RamDisk`) or any other that meets the contract in `BlockDriver`.
* **Wall clock** (`kernel/timer.c`). `WallClock`.

Conventions. A pure definition on values states what an operation means; a method with arrays,
fields and loops has the shape of the C code and is proved against it. Descriptors are array
indices, NULL is -1, and page `p` starts at address `4096 * p`. Integers are unbounded except where
the width matters: there the wrap-around is written out (`% WORD`, `int32`) or proved not to happen.
Each critical section of the kernel (interrupts disabled) is one atomic step. `do_waitpid` is
reached only through the system call gate, which masks interrupts, so one pass of its loop,
including going to sleep, is atomic; so is `do_sleep`. Code the model does not see is a
nondeterministic choice or a parameter: whether the kernel has memory for `brk` and `kmalloc`, and
what a block driver does within its contract. A ghost log keeps the calls of a driver and its answers. `Unfold`, `Expand` and the predicates written as `forall k :: Unfold(k) ==> ...` only
keep large predicates folded in proofs.

Where the code does less than one would expect, the model keeps the code, gives an input, and
proves the exact condition:

| behaviour | input | condition |
|---|---|---|
| initial blocks overlap, or overrun memory, when the descriptor array or memory does not end on a page boundary | `PhysInit.UnalignedExample` | `PhysInit.InitTilesIffAligned` |
| a block at the last page cannot be freed | `BlockCalls.LastPageExample` | `BlockCalls.FreeableIffNotLastPage` |
| malloc returns fewer bytes than asked for | `Malloc.WrapExample` | `Malloc.PayloadSufficesIffNoWrap` |
| malloc returns memory that was never obtained: the bytes asked for wrap around, the break does, or a refusal goes unnoticed | `Malloc.NothingAskedExample`, `Malloc.ShrunkExample`, `Malloc.RefusedExample` | `Malloc.RequestSafeIff`, `Malloc.Heap.Malloc` |
| sbrk reports success when the segment has shrunk, or has not grown | `Break.WrappedBreakExample`, `Break.RefusalLostExample` | `Break.HonestIff`, `Break.BacksIff` |
| pages added by realloc are not zero | `PhysMem.NotZeroedExample` | `PhysMem.WidenedZeroIff` |
| sleep is too short, or never ends | `Tasks.SleepForeverExample` | `Tasks.SleepExactIffNoWrap`, `Tasks.WakesAfterTimeout` |
| an exiting task is left to a dead parent | `Tasks.InitGoneExample` | `Tasks.HeirAliveIff` |
| a short unaligned range transfers too much | `BlockDevice.ShortRangeExample` | `BlockDevice.PlanExactIff` |
| an offset of 2^32 blocks or more reaches another block | `BlockDevice.FarOffsetExample` | `BlockDevice.BlockNumberIff` |
| a range that wraps around passes the RAM disk's check | `RamDisk.WrappedRequestExample` | `RamDisk.AcceptsIff` |

Code and comments disagree in three places, and the model follows the code. `kernel/timer.c` calls
`time_t` a signed 64-bit value; `include/simplix/types.h` makes it unsigned and 32 bits wide.
`kernel/task.c` announces a 64-bit computation of the sleep time, but the product is taken in 32
bits. The comment on `realloc_physmem_block` promises zeroed memory, but widening in place does not
zero the new pages.

## Model

| member | source | states |
|---|---|---|
| Ring.InsertAfter | include/simplix/list.h:47-53 | the ring of indices gets the new node right after the item; only links change |
| Ring.InsertBefore | include/simplix/list.h:39-45 | the ring gets the new node right before the item, which for the first node is the end of the list |
| Ring.Append | include/simplix/list.h:55-61 | the list grows by one node at its end, also from the empty list |
| Ring.Remove | include/simplix/list.h:63-71 | the list loses exactly that node; the head moves on, or becomes NULL for the last node |
| Ring.RemoveNext | include/simplix/list.h:63-71 | the macro applied to the expression `b->next`, which is evaluated again after each assignment, still removes exactly the node after `b` |
| Ring.ReplaceNext | include/simplix/list.h:79-87 | the macro applied to the expression `b->next` puts the new node in the place of the node after `b` |
| Ring.SplicedInIsInsert | include/simplix/list.h:47-53 | four link assignments on a ring amount to one insertion in its sequence of nodes |
| Ring.SplicedOutIsRemove | include/simplix/list.h:63-71 | two link assignments amount to one removal, and keep forward and backward links inverse |
| Ring.SubstitutedIsUpdate | include/simplix/list.h:79-87 | the four link assignments of a replacement amount to one update of the sequence |
| BlockList.Canonical | kernel/physmem.c:199-231 | a tiling without adjacent holes is determined by its live blocks: two such lists with the same live blocks are equal |
| BlockList.PagesConserved | kernel/physmem.c:142-180 | live pages and hole pages add up to all pages |
| BlockCalls.AllocKeeps | kernel/physmem.c:164-175 | splitting a hole keeps tiling and coalescing and adds exactly one live block |
| BlockCalls.FreeKeeps | kernel/physmem.c:215-227 | merging on both sides keeps tiling and coalescing and removes exactly one live block |
| BlockCalls.ResizeKeeps | kernel/physmem.c:256-307 | shrinking or widening in place replaces exactly one live block |
| BlockCalls.FreeUndoesAlloc | kernel/physmem.c:199-231 | freeing a block that was just handed out restores the list exactly |
| BlockCalls.LowestFit | kernel/physmem.c:156-158 | allocation succeeds exactly if some hole is large enough, and takes the lowest one |
| BlockCalls.LowestRun | kernel/physmem.c:156-158 | first fit on the list is, in memory, the lowest run of enough pages that are in no live block, and fails exactly if there is none |
| BlockCalls.ReachIsRun | kernel/physmem.c:291 | a block can be widened in place exactly if the pages behind it are free |
| BlockCalls.ApplyKeeps | kernel/physmem.c:142-332 | every call keeps the list a coalesced tiling of all pages |
| BlockCalls.RunKeeps | kernel/physmem.c:142-332 | so does every sequence of calls, and no page is lost in any of them |
| BlockCalls.FreeableIffNotLastPage | kernel/physmem.c:199-231 | freeing undoes allocation exactly if the block does not start at the last page; there it panics |
| BlockCalls.LastPageExample | kernel/physmem.c:204-205 | on a machine whose only hole is its last page, that page is never given back |
| Descriptors.SpliceRepresents | kernel/physmem.c:164-175 | links, payloads and stale descriptors represent the new list after any replacement of neighbouring blocks by others over the same pages |
| Descriptors.NextIsHole | kernel/physmem.c:217-218 | the C test on the next descriptor is true exactly if a hole follows in the list |
| Descriptors.PrevIsHole | kernel/physmem.c:223-224 | the C test on the previous descriptor is true exactly if a hole precedes in the list |
| BlockOps.FindHole | kernel/physmem.c:156-158 | the walk along the links stops at the first fit of the block list, or comes back to the head |
| BlockOps.Take | kernel/physmem.c:164-175 | the split on links and payloads |
| BlockOps.AbsorbNext | kernel/physmem.c:217-221 | a following hole is merged: one node removed, one page count changed, nothing else |
| BlockOps.AbsorbIntoPrev | kernel/physmem.c:223-227 | the block is merged into a preceding hole: one node removed, one page count changed |
| BlockOps.Release | kernel/physmem.c:215-227 | both merges in sequence are the list operation that frees a block |
| BlockOps.Shrink | kernel/physmem.c:263-285 | shrinking grows the following hole or makes a new one |
| BlockOps.Widen | kernel/physmem.c:291-307 | widening shrinks the following hole or takes all of it |
| BlockOps.AllocBlock | kernel/physmem.c:142-180 | the descriptor array represents the list after the call, with the C error codes; nothing changes on failure |
| BlockOps.FreeBlock | kernel/physmem.c:199-231 | likewise for freeing, for any address whose descriptor was ever linked: stale ones are refused |
| BlockOps.ResizeBlock | kernel/physmem.c:256-307 | likewise for resizing in place |
| PhysInit.InitTilesIffAligned | kernel/physmem.c:83-136 | the four initial blocks tile memory exactly if every boundary is page-aligned, in both layouts |
| PhysInit.InUseAtStart | kernel/physmem.c:95-135 | in both layouts, a page is in use at the start exactly if its address is in the kernel image, in the descriptor array, or in the video memory and BIOS |
| PhysInit.PanicsIff | kernel/physmem.c:105-112 | init_physmem panics exactly if memory ends less than 4112 bytes above the first MiB and the array does not fit behind the kernel |
| PhysInit.ImageAtStart | kernel/physmem.c:125-135 | the kernel image lies in a live block at page 0, and a page is left to allocate |
| PhysInit.UnalignedExample | kernel/physmem.c:83-135 | on a machine of 4 MiB and a page, the descriptor array does not end on a page boundary, and its last page is in two initial blocks |
| PhysInit.Initialize | kernel/physmem.c:116-135 | with aligned boundaries, the links built over raw memory represent the initial list |
| PhysMem.LiveBlocksDisjoint | kernel/physmem.c:142-180 | two live blocks never share a page |
| PhysMem.ReallocLiveSet | kernel/physmem.c:239-332 | a successful realloc replaces one live block and leaves all others alone |
| PhysMem.ReallocDecides | kernel/physmem.c:256-326 | a live block stays if it shrinks or the pages behind it are free, otherwise it moves to the lowest run of free pages; there is no memory exactly if there is no such run, and a panic exactly if the block that has to move is the last page |
| PhysMem.CallOnLiveBlocks | kernel/physmem.c:142-332 | what each call makes of the set of live blocks, which determines the list |
| PhysMem.ReallocContent | kernel/physmem.c:309-326 | it keeps the content both sizes have in common, zeroes what a relocation adds, and changes no page outside the new block and none of a block that was live |
| PhysMem.WidenedZeroIff | kernel/physmem.c:291-326 | the pages that a successful widening adds are all zero exactly if the block had to move or they were zero before |
| PhysMem.NotZeroed | kernel/physmem.c:291-307 | a block widened by a page into the hole behind it gets that page as it was |
| PhysMem.NotZeroedExample | kernel/physmem.c:291-307 | so it is for the first block handed out on every bootable machine with page-aligned boundaries |
| PhysMem.ReallocFailure | kernel/physmem.c:239-332 | a refused realloc changes neither list nor memory |
| PhysMem.OnlyHandedOut | kernel/physmem.c:199-231 | a page becomes the start of a live block only by a call that hands it out |
| PhysMem.SecondFreeRefused | kernel/physmem.c:209-213 | a second free of an address fails, after any calls that do not hand the address out again |
| PhysMem.Allocator.constructor | kernel/physmem.c:83-136 | the allocator starts valid with the four initial blocks, the kernel image among the live ones, and a page to allocate |
| PhysMem.Allocator.AllocRaw | kernel/physmem.c:142-180 | first fit on the representation, without touching memory |
| PhysMem.Allocator.Alloc | kernel/physmem.c:188-194 | the new block is zeroed, and no other page |
| PhysMem.Allocator.Free | kernel/physmem.c:199-231 | success exactly for the start of a live block, failure for a stale descriptor, panic at the last page |
| PhysMem.Allocator.Realloc | kernel/physmem.c:239-332 | list, result, address and memory are those of the specification in every case |
| Segments.BuildDecodes | include/simplix/segment.h:89-110 | the fields of a 4 KiB descriptor are the digits of its address and of its limit in pages, and SEG_ADDR and SEG_SIZE give them back |
| ProcessMemory.AddTask | kernel/sys.c:113-114 | a new owner of fresh blocks keeps all holdings disjoint and live |
| ProcessMemory.ChangeTask | kernel/sys.c:216-228 | so does trading holdings for others nobody owns |
| ProcessMemory.NoSharedPages | kernel/sys.c:48-117 | under that ownership, stacks and segments of all live tasks are pairwise disjoint page ranges |
| ProcessMemory.ForkHoldings | kernel/sys.c:70-104 | the two blocks of a fork are new, live and distinct |
| ProcessMemory.ForkCopies | kernel/sys.c:76-111 | the two copies of a fork give the child the parent's pages, but for a saved EAX of 0, and change nothing else |
| ProcessMemory.ForkContext | kernel/sys.c:106-111 | the stack of the child differs from the parent's in the four bytes of the saved EAX only, which are 0 |
| ProcessMemory.GrabStack | kernel/task.c:56-69 | the stack of a kernel thread is zero but for its initial context, and no other page changes |
| ProcessMemory.ThreadContext | kernel/task.c:60-69 | every byte of the stack of a kernel thread: EIP is the function, CS 8, the other selectors 16, EFLAGS 512, all else 0 |
| ProcessMemory.UserTask | kernel/sys.c:103-104 | code and data segments have one base, the types of user code and user data, and the sizes in whole pages |
| MemoryRuns.ForkKeeps | kernel/sys.c:48-117 | two first-fit allocations and a new task keep ownership |
| MemoryRuns.UndoGrant | kernel/sys.c:119-125 | freeing the new stack of a fork that fails restores the block list, unless it lies at the last page |
| MemoryRuns.ThreadKeeps | kernel/task.c:49-74 | a kernel thread keeps ownership |
| MemoryRuns.ExitKeeps | kernel/task.c:107-138 | an exit keeps ownership and gives back exactly the pages of the exiting task |
| Break.NewBreakFacts | kernel/sys.c:202 | the new break is page-aligned and rounds up by less than a page, unless the sum wraps around |
| Break.NewBreakWraps | kernel/sys.c:202 | if it does, the new break is 0 |
| MemoryRuns.BrkIsNewSegment | kernel/sys.c:196-231 | the segment that sys_brk leaves, by its tests and the result of the reallocation, is the one that sbrk is proved over |
| MemoryRuns.BrkKeeps | kernel/sys.c:196-231 | a resized segment, in place or moved, keeps ownership |
| MemoryRuns.CallKeeps | kernel/physmem.c:142-332 | an allocation, free or reallocation of blocks that no task holds keeps ownership |
| MemoryRuns.RunKeeps | kernel/sys.c:48-231 | ownership holds in every state of every run of forks, failed forks, kernel threads, exits, brks, switches and other allocator calls |
| MemoryRuns.LastStep | kernel/sys.c:48-231 | when a run is extended by an event, that event leads from the old state to the new one, so the contracts below determine the new state from the old |
| MemoryRuns.SegmentsAreBlocks | kernel/sys.c:80-104 | in every state of every run, code and data of a forked task have the types of user code and data and one base, where a live block of exactly the data size starts |
| MemoryRuns.NoPageShared | kernel/sys.c:48-231 | in every state of every run, no two tasks that are not dead share a page |
| MemoryRuns.Machine.constructor | kernel/sched.c:156-192 | idle alone, over the kernel image and its stack, is a run of no events |
| MemoryRuns.Boot | kernel/sched.c:156-192 | from init_physmem on, on every machine with page-aligned boundaries: the idle task gets its stack, and the run starts with nothing else live than at the start of memory management |
| MemoryRuns.Machine.Fork | kernel/sys.c:48-125 | the run is the old one and a fork event; a refused fork restores the list and the memory in use if the unassigned local is 0 |
| MemoryRuns.Machine.KernelThread | kernel/task.c:49-74 | the run is the old one and a thread event; nothing changes on failure |
| MemoryRuns.Machine.Exit | kernel/task.c:107-138 | the run is the old one and an exit event, with the switch to another task; a halt only for a block at the last page |
| MemoryRuns.Machine.Brk | kernel/sys.c:196-231 | the run is the old one and a brk event; a refused call changes nothing and returns the old break |
| MemoryRuns.Machine.SwitchTo | kernel/sched.c:264-267 | the run is the old one and a switch event |
| MemoryRuns.Machine.AllocOther | kernel/physmem.c:188-194 | an allocation by another part of the kernel, first fit or refused, is one event |
| MemoryRuns.Machine.FreeOther | kernel/physmem.c:199-231 | so is the free of a block that no task holds, which succeeds exactly for the start of a live block |
| MemoryRuns.Machine.ReallocOther | kernel/physmem.c:239-332 | so is the reallocation of one, with the result and address of the specification |
| Break.BacksIff | lib/stdlib.c:44-52 | for one reply of the kernel, sbrk fails or the bytes asked for are in the segment exactly if the kernel grows it or returns the break that sbrk compares with |
| Break.SbrkOutcome | lib/stdlib.c:32-53 | after a failure nothing has changed, after an honest success break and segment agree again, and otherwise bytes lie outside the segment |
| Break.HonestIff | lib/stdlib.c:32-53 | that is so for every reply of the kernel exactly if the bytes fit 32 bits, the break is a multiple of the page size, and their sum does not wrap around or wraps to a size that the kernel refuses or that is the break |
| Break.WrappedBreakExample | lib/stdlib.c:44-52 | at a break of 256 KiB a request of 2^32 - 4096 bytes shrinks the segment by a page and succeeds |
| Break.RefusalLostExample | lib/stdlib.c:46-47 | after a request of 8200 bytes the break is off a page boundary, and a refusal of the kernel is reported as success |
| FreeList.SortedCanonical | lib/stdlib.c:126-151 | a sorted coalesced free list is determined by the units it covers |
| FreeList.InsertKeeps | lib/stdlib.c:136-148 | freeing adds exactly the units of the block and keeps the list sorted and coalesced |
| FreeList.TakeKeeps | lib/stdlib.c:108-117 | allocating takes exactly the units of the new block |
| Malloc.FindGap | lib/stdlib.c:132-134 | from any start, the search for the place of a freed block ends at the only gap it fits |
| Malloc.Coalesce | lib/stdlib.c:136-148 | the values of the two headers that are written, and that no other changes |
| Malloc.CoalescedLinks | lib/stdlib.c:136-148 | those headers are the links of the list with the block inserted and joined to its neighbours |
| Malloc.FreeUnits | lib/stdlib.c:126-151 | search and update together keep the heap invariant with the block freed |
| Malloc.TakeUnits | lib/stdlib.c:108-117 | unlinking or splitting a block, on headers in memory |
| Malloc.Search | lib/stdlib.c:106-123 | one trip around finds the first large enough block behind freep, or proves there is none |
| Malloc.PayloadSufficesIffNoWrap | lib/stdlib.c:99 | the block is large enough exactly if rounding up does not wrap around, and never a whole unit too large |
| Malloc.RequestSafeIff | lib/stdlib.c:75-99 | for a request that no free block fits, payload enough and all of it obtained, or failure, whatever the kernel replies, exactly if it is at most 2^32 - 16 and sbrk is honest at that break |
| Malloc.NothingAskedExample | lib/stdlib.c:83 | for eight requests near 2^32 the units are 2^29 and sbrk is asked for 0 bytes |
| Malloc.ShrunkExample | lib/stdlib.c:44-52 | for 0xffffeff8 bytes neither rounding nor product wraps around, but the break does: the segment shrinks and none of the bytes is obtained |
| Malloc.RefusedExample | lib/stdlib.c:46-50 | after a request of 8192 bytes, a refused request of one byte is taken for granted |
| Malloc.WrapExample | lib/stdlib.c:99 | the largest request gets a block of one header and no payload |
| Malloc.EveryUnitOnce | lib/stdlib.c:75-151 | every unit that sbrk reported as given is in exactly one free or live block |
| Malloc.OneCycle | lib/stdlib.c:75-151 | following the links from any header reaches every header within the length of the list and leads back; addresses rise except at one place, and no two free blocks touch |
| Malloc.Heap.Free | lib/stdlib.c:126-151 | the live blocks lose exactly the freed one, its units become free, and the next search starts at the block below it |
| Malloc.Heap.BrkCall | kernel/sys.c:196-231 | the segment and the result are those of brk on the old segment |
| Malloc.Heap.SbrkCall | lib/stdlib.c:32-53 | result, remembered break and segment are those of sbrk on the old ones, also on the first call, which fetches the break |
| Malloc.Heap.MoreCore | lib/stdlib.c:75-92 | new units are put on the free list, which then holds a large enough block; NULL exactly if sbrk fails, and then nothing changes; every unit lies in the segment afterwards exactly if sbrk was honest |
| Malloc.Heap.Prepare | lib/stdlib.c:101-104 | the empty heap becomes the list of the static header alone |
| Malloc.Heap.Malloc | lib/stdlib.c:94-124 | a new block disjoint from all live ones after at most one successful sbrk; from a list with a large enough block, the last units of the first one behind freep; on failure no block changes; every unit of the heap lies in the segment afterwards exactly if a free block fits or sbrk is honest about the bytes needed |
| Tasks.BootIsSound | kernel/sys.c:58-68 | the invariant holds when idle has just forked init, with any boot-time kernel threads |
| Tasks.BootIsFork | kernel/sys.c:58-68 | that state is what idle alone makes by forking init |
| Tasks.SpawnKeeps | kernel/sys.c:58-68 | fork and kernel_thread keep the invariant |
| Tasks.ExitKeeps | kernel/task.c:92-139 | exit with re-parenting keeps it: no wakeup lost, no dead parent, one more exit to be reaped |
| Tasks.ExitFields | kernel/task.c:107-135 | field by field: the children go to the parent of the exiting task, or to init, that heir is woken up if it waits, and nothing else about another task changes |
| Tasks.ExitKeepsDescent | kernel/task.c:107-118 | between two other tasks, one is an ancestor of the other after an exit exactly if it was before, or if the exiting task was an ancestor of the other and the first is its heir or above the heir |
| Tasks.HeirAliveIff | kernel/task.c:112-118 | a task's parent is alive after its exit exactly if it had one, or init is alive and another task |
| Tasks.InitGoneExample | kernel/task.c:112-113 | from the boot state, once init has exited, a boot-time kernel thread that exits is left to a dead parent |
| Tasks.ReapKeeps | kernel/task.c:159-169 | reaping keeps the invariant and moves one zombie from the unreaped to the reaped |
| Tasks.WaitKeeps | kernel/task.c:172-180 | so do finding no child and going to sleep |
| Tasks.WaitOutcomes | kernel/task.c:144-184 | a child returned was dead, the caller's, and the one asked for; -1 means that no such child exists; the caller sleeps when there are some and none is dead |
| Tasks.SleepExactIffNoWrap | kernel/task.c:201-202 | the timeout is the one asked for exactly if the product fits 32 bits; it is 0, for ever, exactly if what is left is below one tick |
| Tasks.WakesAfterTimeout | kernel/timer.c:209-215 | a task in timed sleep wakes up after exactly as many ticks as its timeout, and never if that is 0 |
| Tasks.SleepsThatLong | kernel/task.c:189-204 | in every run, a task that sleeps stays asleep until the tick that makes the milliseconds asked for, modulo the wrap-around, and that tick wakes it up |
| Tasks.SleepForeverExample | kernel/task.c:201-202 | after a sleep of 4294968 ms no number of ticks wakes the sleeper |
| Tasks.SleepKeeps | kernel/task.c:189-204 | a timed sleep keeps the invariant: a timeout is set exactly in timed sleep |
| Tasks.TickKeeps | kernel/timer.c:198-215 | a tick keeps the invariant |
| Tasks.TickFields | kernel/timer.c:198-215 | field by field: the running task has one tick less, every timeout is one less, and one that is over makes its task runnable |
| Tasks.ScheduleKeeps | kernel/sched.c:231-270 | an election keeps it: a runnable task with the longest slice, idle only if no other is ready, all slices recharged when none is left |
| Tasks.ScheduleFields | kernel/sched.c:239-262 | in numbers: when no runnable task has time left, every task but idle, asleep or not, gets 30 ticks more up to 150; otherwise no slice changes |
| Tasks.IdleOnlyIfNothingElse | kernel/sched.c:231-270 | in every run idle is elected exactly if no other task is ready, and slices stay within bounds |
| Tasks.NextKeeps | kernel/task.c:92-204 | every step of the machine keeps the invariant |
| Tasks.RunKeeps | kernel/task.c:92-204 | in every state of every run: a task asleep in waitpid has a child to wait for and no dead one, every parent is alive, every exit is reaped once or still a zombie |
| Tasks.DeadStaysDead | kernel/task.c:159-169 | a dead task keeps its status until its current parent reaps it with that status |
| Tasks.NoCycle | kernel/task.c:115-118 | re-parenting makes no cycle: every chain of parents ends |
| Scheduler.ElectedIsRight | kernel/sched.c:239-262 | the elected task is runnable and has the longest slice, first in the list; if all are used up they are recharged; idle runs exactly if nothing else is ready |
| Scheduler.BoundedWaiting | kernel/sched.c:231-270 | every ready task is elected within 16 quanta for each other ready task |
| Scheduler.QuantumIsInterrupts | kernel/timer.c:198-220 | an election and SCHED_TICKS timer interrupts on the list are one quantum and the next election |
| Scheduler.InterruptBound | kernel/timer.c:185-221 | from any moment, a ready task runs within SCHED_TICKS * (16 r + 1) interrupts, for r other ready tasks |
| TaskTable.AllocPid | kernel/sched.c:90-112 | of all unused pids the first after the counter, within one trip around all pids |
| TaskTable.LoopEndsIff | kernel/sched.c:100-108 | some round of the loop tries an unused pid exactly if there is one |
| TaskTable.GetTask | kernel/sched.c:118-134 | the first entry with that pid, if any |
| TaskTable.Elect | kernel/sched.c:239-262 | the loops compute the slices and the election of the specification |
| TaskTable.RechargeLoop | kernel/sched.c:249-256 | every slice but idle's is recharged up to the limit, and the last ready task is found |
| TaskTable.ExitLoop | kernel/task.c:106-135 | death, re-parenting and wakeup on the list are the exit of the state machine |
| TaskTable.FindChild | kernel/task.c:158-170 | the first dead matching child, and whether any child matches |
| TaskTable.TickLoop | kernel/timer.c:198-215 | slices and timeouts after a tick; the assertion of the timer never fails |
| TaskTable.ElectionIs | kernel/sched.c:239-262 | the election on the list is an election of the state machine |
| TaskTable.Switch | kernel/sched.c:231-270 | the switch goes to the elected task, and list and state machine agree on the new slices |
| TaskTable.LastStep | kernel/task.c:92-204 | when a run is extended by an event, that event leads from the old state to the new one |
| TaskTable.Kernel.Boot | kernel/sched.c:156-192 | idle with init just forked is a run of no events |
| TaskTable.Kernel.constructor | kernel/sched.c:156-192 | so is any sound list |
| TaskTable.Kernel.Schedule | kernel/sched.c:231-270 | the run is the old one and a schedule event; slices and current task are those of the election on the list |
| TaskTable.Kernel.Fork | kernel/sys.c:58-68 | the run is the old one and a fork event with the first unused pid and the parent's time slice; the list grows at its end |
| TaskTable.Kernel.KernelThread | kernel/task.c:49-54 | likewise with a time slice of 100, and the new entry of the list |
| TaskTable.Kernel.Exit | kernel/task.c:92-139 | the run is the old one, an exit and a schedule event, with the election on the list in its old order |
| TaskTable.Kernel.Sleep | kernel/task.c:189-204 | nothing for 0 ms, else the run is the old one, a sleep and a schedule event, with the election on the list in its old order |
| TaskTable.Kernel.WaitPid | kernel/task.c:144-184 | the run is the old one and a reap, a no-child, or an await and a schedule event, and the result says which; a reap takes the first dead child that matches out of the list |
| TaskTable.Kernel.TimerInterrupt | kernel/timer.c:185-221 | the run is the old one and a tick event, with a schedule event every SCHED_TICKS ticks; list, current task and counter are those of the specification |
| TaskTable.AwaitTurn | kernel/timer.c:185-221 | timer interrupts of the kernel make a ready task the current one within the bound |
| BigReal.SetToInteger | kernel/main.c:401-407 | the value is the integer in units of the first digit |
| BigReal.IsZero | kernel/main.c:412-419 | true exactly if the value is zero |
| BigReal.Add | kernel/main.c:425-437 | the sum modulo the range of the array; digits stay digits, in 32 bits |
| BigReal.Sub | kernel/main.c:444-456 | the exact difference; the top digit is negative exactly if x is smaller than y |
| BigReal.Mul | kernel/main.c:462-476 | the product modulo the range of the array, in 32 bits |
| BigReal.Div | kernel/main.c:483-492 | the quotient rounded down, also in place, in 32 bits for divisors up to MaxDiv squared |
| Arccot.DivTwice | kernel/main.c:509-514 | rounding down twice is rounding down once, so both branches agree |
| Arccot.DivSquare | kernel/main.c:509-514 | division by p squared, by one or two divisions |
| Arccot.SeriesBounds | kernel/main.c:516-521 | partial sums stay between zero and the first term: no borrow, no carry out |
| Arccot.SmallDivisor | kernel/main.c:516-522 | while the loop runs, its odd divisor is bounded by the number of digits |
| Arccot.SeriesSettles | kernel/main.c:508 | once the quotient is zero, further terms change nothing |
| Arccot.ComputeArccot | kernel/main.c:499-525 | the loop ends with the whole alternating sum of rounded terms |
| Arccot.Accuracy | kernel/main.c:494-525 | that sum is within `terms` + 1 units of the last digit of every longer exact partial sum |
| Arccot.ComputePi | kernel/main.c:527-570 | pi is 4 * (12 A18 + 8 A57 - 5 A239) exactly, without overflow or borrow |
| Arccot.PiAccuracy | kernel/main.c:545-564 | that value is within 100 * (`terms` + 1) units of the last digit of every longer exact partial sum |
| Arccot.GaussFormula | kernel/main.c:539-547 | (18 + i)^12 (57 + i)^8 (239 - i)^5 lies on the diagonal of the first quadrant: the sum of the three arc cotangents is pi/4 |
| BlockDevice.PlanExactIff | kernel/blkdev.c:288-308 | first part, full blocks and last part add up to the length exactly if the range starts a block or reaches the end of its first one |
| BlockDevice.ShortRangeExample | kernel/blkdev.c:307-308 | a 5-byte range inside a block makes the number of full blocks wrap around |
| BlockDevice.BlockNumberIff | kernel/blkdev.c:288-289 | the 32-bit block number is right exactly below 2^32 blocks |
| BlockDevice.FarOffsetExample | kernel/blkdev.c:288-289 | offset 2^32 * 512 starts at block 0 |
| BlockDevice.MakePlan | kernel/blkdev.c:288-308 | the pieces cover the range without gap or overlap, and the last request ends at the end block of the range |
| BlockDevice.Device.ReadImpl | kernel/blkdev.c:55 | the RAM disk driver, or any other, reads as the contract says; a RAM disk serves what lies on it, and all of it |
| BlockDevice.Device.WriteImpl | kernel/blkdev.c:56 | likewise for writing |
| BlockDevice.ReadBlocks | kernel/blkdev.c:310-317 | the loop goes on after short counts, and ends with the middle of the buffer filled exactly if no call is refused |
| BlockDevice.ReadRange | kernel/blkdev.c:286-333 | success exactly if no temporary buffer is missing and no call refused; the driver is asked for blocks of the range only; the buffer is then exactly the range of the device, and bytes behind it are never changed |
| BlockDevice.WriteBlocks | kernel/blkdev.c:396-403 | the loop goes on after short counts, and ends with the middle of the range written exactly if no call is refused |
| BlockDevice.WriteRange | kernel/blkdev.c:368-423 | success as for a read, and then exactly the range is replaced; on failure each of its bytes is old or new, and no other byte changed |
| BlockDevice.PartWritten | kernel/blkdev.c:373-390 | writing back a block with some bytes replaced writes exactly those bytes |
| BlockDevice.WrittenIsReplaced | kernel/blkdev.c:346-429 | a completed write gives the old bytes with the range replaced |
| BlockDevice.ReadAfterWrite | kernel/blkdev.c:264-429 | a read after a write of the same range returns what was written |
| BlockDevice.RamTransfers | drivers/ramdisk.c:80-101 | a range that lies on a RAM disk is transferred unless a temporary buffer is missing; a block-aligned one always |
| BlockDevice.WriteThenRead | kernel/blkdev.c:264-429 | so on every device, a RAM disk or another, a completed write and read give back the bytes written; on a RAM disk that holds the range they are completed |
| BlockDevice.GetInstance | kernel/blkdev.c:98-117 | the first instance with the minor number, with one more reference |
| BlockDevice.ReleaseInstance | kernel/blkdev.c:122-130 | one reference less |
| BlockDevice.Read | kernel/blkdev.c:264-339 | errors, contents and reference counts of a whole read of the first instance with the minor number, which leaves every count as it was; E_FAIL exactly if a temporary buffer is missing or a call is refused |
| BlockDevice.Write | kernel/blkdev.c:346-429 | errors, contents and reference counts of a whole write, which touches only the first instance with the minor number; E_FAIL as for a read |
| RamDisk.AcceptsIff | drivers/ramdisk.c:87-88 | a request the 32-bit check accepts is in range exactly if the sum does not wrap around |
| RamDisk.WrappedRequestExample | drivers/ramdisk.c:87-88 | a request for 2^32 - 1 blocks from block 1 passes the check |
| RamDisk.Find | drivers/ramdisk.c:57-75 | the first disk with the minor number, if any |
| RamDisk.ReadBlocks | drivers/ramdisk.c:80-101 | all blocks or none, within the read contract of drivers |
| RamDisk.WriteBlocks | drivers/ramdisk.c:80-101 | all blocks or none, within the write contract of drivers; other disks do not change |
| WallClock.LeapDays | kernel/timer.c:60-73 | the days of the years since 1970 are the leap year formula |
| WallClock.MonthsClosedForm | kernel/timer.c:74-84 | the table of month lengths adds up to the rule for the day of the year |
| WallClock.UnixTime | kernel/timer.c:166-179 | the loops compute the seconds since the Epoch of POSIX.1-2017, section 4.16, modulo 2^32 |
| WallClock.StrictlyIncreasing | kernel/timer.c:166-179 | a later date has a larger number |
| WallClock.LaterIsOneMore | kernel/timer.c:166-179 | the next second of the calendar is one more |
| WallClock.EverySecondHasADate | kernel/timer.c:166-179 | every number of seconds is that of a date, so dates and numbers correspond one to one |
| WallClock.NoWrapThrough2099 | kernel/timer.c:162-179 | no date up to the end of 2099 wraps around |
| WallClock.BcdToDec | kernel/timer.c:86-95 | the digits in base 16 read in base 10 |
| WallClock.BcdRoundTrip | kernel/timer.c:86-95 | decoding the binary coded decimal of a number gives the number |

## Left out

- Assembly, boot loader, task switching, descriptor tables, interrupt controllers and port I/O: machine state below the level of these algorithms.
- The keyboard, graphics and IDE drivers; of the IDE driver only the short counts remain, in the driver contract.
- `kernel/kmem.c`, `kernel/ksync.c`, `lib/string.c`, formatting and console output: easy members; copying and filling memory are used with their meaning.
- Registering and unregistering block devices and creating or destroying RAM disks.
- The allocation of task structures.
- Counters that nothing else reads: `ticks`, `cputime`, and the wall clock after boot.
- Physical memory below or above the array of pages: a page is one value, and the descriptor array itself is not in it.
- `list_remove` at kernel/physmem.c:302 is read as removing the hole that follows the block, which is what the surrounding code and its comment intend.
- BlockOps.Widen: models that reading of line 302, not the removal of an unlinked descriptor.
- PhysInit.Initialize: for page-aligned boundaries only; InitTilesIffAligned says what happens otherwise.
- PhysMem.Allocator.Free: for addresses whose descriptor was linked at some time; the payload of any other descriptor is raw memory.
- MemoryRuns.Machine.Fork: its error path frees `new_ds_addr`, which is never assigned there; nothing is claimed when that value is not 0.
- MemoryRuns.Machine.Brk: for forked tasks, whose segment is a block of its own; idle never moves its break.
- MemoryRuns.Machine.FreeOther: not for a block at the last page, where the C code panics.
- Malloc.Heap.Malloc: for a heap that lies in its segment; once sbrk has not been honest, nothing is claimed of later calls of malloc.
- Malloc.Heap.MoreCore: headers written outside the segment do not fault in the model, and their addresses are not reduced modulo 2^32.
- Tasks.ExitKeeps: init does not exit, and idle panics when it does.
- Tasks.SleepKeeps: for times whose timeout does not come out as 0; see WakesAfterTimeout for those.
- TaskTable.Kernel.Fork: some pid is unused; LoopEndsIff says that otherwise the C loop does not end.
- TaskTable.Kernel.WaitPid: one pass of the repeat loop; the next pass is another call once the task runs again.
- Scheduler.BoundedWaiting: as long as no task changes state, which is when the bound is meant to hold.
- Scheduler.InterruptBound: likewise, with no timeout pending.
- Arccot.ComputeArccot: for p at least 2 with p * p in 32 bits, and for array sizes whose divisors stay within the limit of Div.
- Arccot.ComputePi: the loop over three constants is written out, and the size of the arrays is a parameter.
- BlockDevice.ReadRange: for ranges that satisfy PlanExactIff and end below block 2^32; other ranges run past the buffer or issue a request whose end wraps around.
- BlockDevice.WriteRange: as for ReadRange.
- BlockDevice.Read: for major numbers below the number of classes; the C check lets one more through.
- BlockDevice.Write: as for Read.
- RamDisk.ReadBlocks: for requests whose end is below 2^32, as the driver contract demands; AcceptsIff says what happens otherwise.
- RamDisk.WriteBlocks: as for ReadBlocks.
- WallClock.UnixTime: for valid dates; what the clock chip returns is a parameter.
