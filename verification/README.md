# Verified model of the cool-os process core

The project models the parts of the kernel that decide which task runs and which memory it may use,
and three neighbours with an algorithm of their own, and proves what they promise.

* **Frames** (`Pmm`): the bitmap allocator as a class over the real bitmap bytes, with the set of
  free frames as its abstract state.
* **Address spaces** (`PageTables`, `PteBits`, `Ownership`, `Paging`): page tables in the frames of
  memory, written in place level by level. The abstract object is the flat map from page number to
  leaf entry together with the positions of all tables; `Ownership` says which frames the user half
  of a space is made of, each at one position.
* **ELF** (`ElfFormat`, `Elf`): validation and loading, and what the loaded program sees through the
  page walk.
* **Heap** (`HeapLayout`, `HeapCells`, `Heap`): blocks as values, block headers in memory, and the
  heap object with its arenas taken from the frame allocator.
* **Processes** (`Lifecycle`, `Tasks`): the life of tasks as a state machine over atomic kernel
  steps, with theorems over all runs, and the same operations on pointers between task structures,
  each proved to refine its abstract step.
* **The kernel as a whole** (`Accounts`, `Kernel`, `Processes`): creation, waiting and reaping over
  one frame allocator, one memory, one heap and one task table. The invariant says that every frame
  is either free or has exactly one owner: reserved, heap arena, kernel stack, PML4, one position in
  one user half, or lost. `Runs` executes any list of operations on it.
* **FAT32** (`FatFormat`, `Fat32`), **event ring** (`EventRing`) and **context switch**
  (`ContextSwitch`): the file reader with its handle table and shared sector buffer, the cycle-bit
  ring, and the saving of registers on kernel stacks.

`Base` holds the shared types. An operation that may end in `panic` returns an `Outcome`; `Halted`
stands for the panic. Addresses of heap blocks and frames are physical; the direct map adds one
constant to all of them. `dafny verify dfyconfig.toml` checks everything.

Findings about the code that the statements below make precise:

* `kmalloc` of a task structure needs an arena of one page at most, for which the frame allocator
  panics; so the out-of-memory returns of `task_create_elf` are never taken, and its only failing
  returns are those for an empty or unacceptable file (`Processes.KernelState.CreateElf`).
* `paging_map_page_in` on a present leaf loses the old frame, and only then (`Ownership.RemapLoses`).
  So loading a program loses frames for good exactly when one of its pages has two segments, or a
  segment and the stack (`Processes.KernelState.CreateElf`); the loader accepts such files
  (`Elf.OverlapIsAccepted`, `Processes.OverlapHappens`), and the later segment alone is seen on the
  shared page.
* The loader's test that a segment lies in the file is right exactly when no sum wraps around
  (`ElfFormat.InFileIffNoWrap`); it accepts files for which it is wrong (`ElfFormat.WrapIsAccepted`).
* On a complete file `fat_read` gives exactly the bytes asked for and their number iff that number is
  below 2^31, and position + n stays below 2^32 or the cluster chain ends with the file
  (`FatFormat.ReadExact`). Otherwise it reads on behind the file (`FatFormat.SlackRead`), or returns a
  negative number, -1 for the whole of the largest file (`FatFormat.LongRead`). So
  `task_create_from_path` takes a failed read of such a file for a good one, and no other
  (`Fat32.FatDriver.LoadFile`).
* A task that ends without `task_exit` loses its parent's wakeup exactly when the parent is blocked
  (`Lifecycle.DiedWake`), which happens (`Lifecycle.LostWakeup`).
* `task_exit` leaves stale sibling links in orphans (`Tasks.OrphansKeepLinks`); all links that the
  kernel follows are live (`Tasks.PointersLive`).
* A 257th outstanding event makes the event ring look empty (`EventRing.RoomIsNeeded`).

## Model

| member | source | states |
|---|---|---|
| `Pmm.SetBitInByte` | src/pmm.c:31-33 | or-ing in `1 << k` sets bit k and no other |
| `Pmm.MaskIsShift` | src/pmm.c:31-41 | bit k of a bitmap byte is the one that 1 << k sets |
| `Pmm.ClearBitInByte` | src/pmm.c:35-37 | masking out `1 << k` clears bit k and no other |
| `Pmm.FrameAllocator.BitmapSet` | src/pmm.c:31-33 | the abstract free set loses exactly this frame |
| `Pmm.FrameAllocator.BitmapClear` | src/pmm.c:35-37 | the abstract free set gains exactly this frame |
| `Pmm.FrameAllocator.BitmapTest` | src/pmm.c:39-41 | a bit is set iff its frame is not free |
| `Pmm.FrameAllocator.Init` | src/pmm.c:43-134 | it panics iff no USABLE entry has room for the bitmap or the first one that has starts at address 0; otherwise a frame is free iff all its bytes lie in a USABLE entry and none of its bytes lies in the bitmap or in the kernel image, and the counter is exact |
| `Pmm.FrameAllocator.FreeUsable` | src/pmm.c:86-97 | after step 5 the free frames are exactly those of USABLE entries; disjoint entries make the counter exact |
| `Pmm.FrameAllocator.ReserveKernel` | src/pmm.c:109-131 | exactly the frames with a byte of the kernel image leave the free set |
| `Pmm.TouchedFrames` | src/pmm.c:101-131 | rounding the start down and the end up gives exactly the frames with a byte in the range |
| `Pmm.FrameAllocator.AllocFrame` | src/pmm.c:136-149 | takes the lowest free frame; panics iff none is free; the counter stays the number of free frames |
| `Pmm.FrameAllocator.AllocFramesContiguous` | src/pmm.c:151-183 | takes the lowest-starting run of that many free frames; one frame is taken with the panic of `pmm_alloc_frame`; the address 0 is returned when there is no run and also when the run at frame 0 is taken, so it means failure while frame 0 is not free |
| `Pmm.FrameAllocator.FindRun` | src/pmm.c:155-178 | the search loop: finds the lowest run, and None iff no run exists |
| `Pmm.FoundLowest` | src/pmm.c:159-166 | a run that no interrupted earlier start precedes is the lowest one |
| `Pmm.FoundNone` | src/pmm.c:181-182 | when the scan ends without a run, no run exists |
| `Pmm.FrameAllocator.FreeFrame` | src/pmm.c:185-192 | succeeds iff the address is aligned, in range and the frame is in use; then exactly this frame becomes free, otherwise nothing changes |
| `PteBits.WordIsEntry` | include/paging.h:6-19 | a 64-bit word is determined by the entry it stands for: frame number and flags |
| `PteBits.FrameOfValue` | include/paging.h:6-19 | the frame number in bits 12-51 of an address is the address divided by the page size, modulo the address range |
| `PteBits.EntryAddress` | src/paging.c:86 | masking an entry gives the address of the frame it names |
| `PteBits.OrUser` | src/paging.c:83 | or-ing in PTE_USER makes of a present word the entry that a user mapping leaves on its way |
| `PteBits.NewTableEntry` | src/paging.c:69-80 | the word for a new table stands for the entry that a mapping puts into an empty slot |
| `PteBits.EmptyWord` | src/paging.c:55-57 | the words of a zeroed table stand for empty entries |
| `PteBits.LeafEntry` | src/paging.c:120 | the leaf word of a user page stands for the entry that `MapUserPageIn` writes: frame paddr / 4096 on 40 bits, and exactly the flags asked for |
| `PageTables.WalkIndices` | src/paging.c:22-25 | the four index fields of an address are the steps to its 36-bit page number |
| `PageTables.ProcessorWalk` | src/paging.c:22-25 | the walk of the processor by the four 9-bit fields of an address, entry by entry, ends in the leaf of the flat map; a huge entry ends it early |
| `PageTables.WriteEffect` | src/paging.c:74-120 | one entry write into a tree whose table is reached once changes one slot, and hangs at most one fresh table under it; every other slot and node is as before |
| `PageTables.UnreachedWrite` | src/paging.c:48-59 | writes to frames that the tree does not reach change no entry of the tree |
| `Paging.Machine.AllocPageTable` | src/paging.c:48-59 | takes one free frame and zeroes it; fails only by the panic of the frame allocator |
| `Paging.Machine.Descend` | src/paging.c:86-101 | one level of the mapping: blocked iff a huge page is there, otherwise the slot leads on to the old or a fresh table and nothing else changes |
| `Paging.Machine.MapPageIn` | src/paging.c:61-129 | on success the leaf of exactly one page number becomes the masked frame with the flags, all other leaves keep their value, also under new tables; on -1 a huge page is in the way, no leaf and no table position changes and no frame is taken |
| `Paging.Machine.MapUserPageIn` | src/paging.c:137-142 | never -1; the space owns the frame and the new tables, each at one position, and no longer what the page was mapped to before; frames outside the space are unchanged |
| `Ownership.OwnsMapped` | src/paging.c:61-129 | no frame of the user half is reached twice after a mapping, and the kernel half shares nothing with it |
| `Ownership.NoHugeOnPath` | src/paging.c:89-106 | user mappings never run into a huge page |
| `Ownership.RemapLoses` | src/paging.c:120 | of the frames of a user half exactly the one that the page was mapped to is at no position any more; so a mapping loses no frame iff the page was not mapped |
| `Paging.Machine.FreeBelow` | src/paging.c:163-217 | one subtree: every frame below a table is freed once |
| `Paging.Machine.FreeUserPages` | src/paging.c:161-218 | every leaf, PT, PD and PDPT of the user half is freed exactly once and nothing else; no ASSERT fails; the free counter rises by their number |
| `Ownership.DoomedSplit` | src/paging.c:163-217 | what hangs under one entry is the frame it names and what lies below that frame, or nothing |
| `Paging.Machine.CloneKernelMappings` | src/paging.c:151-159 | entries 256-511 are copied, entries 0-255 stay empty, no other frame changes |
| `Ownership.ClonedOwns` | src/paging.c:151-159 | a cloned PML4 owns nothing in the user half, maps no user page, and has the kernel tables in its upper half |
| `Ownership.SpaceKept` | src/paging.c:61-129 | writes elsewhere, or into its own pages, leave an address space as it is |
| `ElfFormat.ValidateSegment` | src/elf.c:81-103 | accepts iff memsz >= filesz and the segment lies in the user range, also when the end wraps around 64 bits |
| `ElfFormat.FirstPass` | src/elf.c:285-329 | accepts iff every loadable segment is in the user range with its file end, taken modulo 2^64, in the file, and the entry point lies between the lowest start and the highest end of loadable segments; reports those bounds |
| `ElfFormat.InFileIffNoWrap` | src/elf.c:305-308 | the segments of an accepted file lie in the file iff none of the sums offset + filesz wraps around 64 bits |
| `ElfFormat.EhdrRoundTrip` | include/elf.h:47-62 | a file header written field by field in little-endian order is read back |
| `ElfFormat.PhdrRoundTrip` | include/elf.h:65-74 | a program header written field by field (eight fields, 56 bytes) is read back |
| `ElfFormat.SegmentRoundTrip` | src/elf.c:285-292 | a program header at e_phoff + i * e_phentsize is segment i |
| `ElfFormat.HeaderExact` | src/elf.c:27-75 | a header is accepted iff it has the magic bytes, 64 bits, little-endian order, type 2 or 3, machine 62, and a program header table inside the file (modulo 2^64) |
| `ElfFormat.AcceptExact` | src/elf.c:285-329 | the acceptance test on the numbers of the program headers: type 1, bounds 0x10000 and 0x7FFFFFFFFFFF, file end modulo 2^64, entry point |
| `ElfFormat.TouchedPages` | src/elf.c:353-358 | rounding the start down and the end up gives exactly the pages that hold a byte of the segment in memory, its zeroed part included |
| `ElfFormat.WrapIsAccepted` | src/elf.c:305-308 | a file of 120 bytes that the loader accepts although its one segment does not lie in it |
| `Elf.CopyIn` | src/elf.c:401-403 | copies exactly the given bytes to the given place of one page |
| `Elf.LoadPage` | src/elf.c:358-405 | one page, mapped before or not: byte by byte the file part of the segment and zero elsewhere, with the rights of p_flags |
| `Elf.SecondPass` | src/elf.c:331-406 | from an empty user half: every page of a loadable segment shows the last segment that touches it, no other page is mapped; the frames taken are those of the user half and those lost, and none is lost iff no page has two segments |
| `Elf.LoadInto` | src/elf.c:261-415 | rejects iff the file is not acceptable, and then nothing is mapped or taken; otherwise as for the second pass |
| `Elf.DisjointIsOnce` | src/elf.c:346-358 | the page ranges of loadable segments are disjoint iff no page is touched by two of them |
| `Elf.OverlapIsAccepted` | src/elf.c:261-329 | a file of 176 bytes with two segments on one page that the loader accepts |
| `Elf.OwnPage` | src/elf.c:331-406 | with disjoint pages every segment is the last one on each of its pages, so that all its bytes show |
| `Elf.ProgramView` | src/elf.c:331-406 | the page walk gives, for the last segment on the page, file byte p_offset + (a - p_vaddr) below p_filesz and 0 on the rest, writable iff bit 1 and executable iff bit 0 of p_flags is set, and no page elsewhere |
| `Elf.SegmentView` | src/elf.c:331-406 | the same without page ranges: a loadable segment shows at each of its addresses unless a later one has a byte on the same page; an address with no segment on its page has no page |
| `Elf.FlagRights` | src/elf.c:339-341 | p_flags 4, 5, 6 and 7 give read-only, executable, writable, and both |
| `Elf.UserWalk` | src/paging.c:67-72 | intermediate entries of mapped user pages allow whatever the leaf allows |
| `HeapLayout.CarveTiles` | src/heap.c:98-115 | after a split the blocks still tile the arena exactly |
| `HeapLayout.CarveNeighbours` | src/heap.c:98-117 | allocation leaves no two free neighbours |
| `HeapLayout.CarveTakes` | src/heap.c:98-117 | the block taken for n bytes is at most 47 bytes longer; a rest of 48 bytes or more becomes a free block that ends where the block ended |
| `HeapLayout.ReleaseTiles` | src/heap.c:157-173 | after coalescing the blocks still tile the arena exactly |
| `HeapLayout.ReleaseNeighbours` | src/heap.c:157-173 | after `kfree` no two adjacent blocks are both free |
| `HeapLayout.OneEnds` | src/heap.c:143-174 | a release ends the life of one block and keeps all other live blocks at their place and size |
| `HeapLayout.ReleaseCarve` | src/heap.c:85-174 | freeing an allocated block restores the layout block for block |
| `HeapCells.CarveLinked` | src/heap.c:102-117 | the header writes of `kmalloc` keep next and prev mutual inverses, along the new layout |
| `HeapCells.MergedLinked` | src/heap.c:157-173 | the header writes of a merge keep next and prev mutual inverses, along the merged layout |
| `Heap.CarveHeap` | src/heap.c:98-122 | allocation keeps the whole heap well-formed in memory and changes no payload byte of another live block |
| `Heap.ReleaseHeap` | src/heap.c:143-174 | freeing keeps the whole heap well-formed in memory and changes no payload byte of another live block |
| `Heap.GrownHeap` | src/heap.c:129-138 | a new arena at the end of the list keeps the heap well-formed and every live payload byte |
| `Heap.LivePayloads` | src/heap.c:85-141 | live payloads are aligned to 16 and pairwise disjoint |
| `Heap.KernelHeap.Memset` | src/heap.c:27-32 | fills exactly the given range |
| `Heap.KernelHeap.FindBlock` | src/heap.c:92-127 | finds the first free block that is long enough, in list order; NULL iff none is |
| `Heap.KernelHeap.TakeBlock` | src/heap.c:98-122 | the writes into a chosen block are those of the specification whose layout `CarveHeap` gives |
| `Heap.KernelHeap.ExpandSize` | src/heap.c:42-71 | a new arena in the lowest run of free frames; NULL iff there is no such run, a panic iff one page is needed and no frame is free |
| `Heap.KernelHeap.HeapInit` | src/heap.c:73-83 | the heap comes up iff two adjacent frames are free |
| `Heap.KernelHeap.AppendArena` | src/heap.c:134-138 | the list grows by the new arena at its end, live payloads are untouched |
| `Heap.KernelHeap.KMalloc` | src/heap.c:85-141 | NULL for size 0; the first free block that is long enough, taken as `CarveTakes` says with all other blocks as before and filled with 0xAA; a new arena of no more pages than needed iff all free blocks are too short; NULL for size > 0 iff no block fits and no frame run is long enough (for one page a panic instead); the recursion is at most one call deep |
| `Heap.NewArenaFits` | src/heap.c:129-140 | a new arena always has room, which bounds the recursion |
| `Heap.KernelHeap.KFree` | src/heap.c:143-174 | succeeds iff the pointer is NULL or the payload of a live block; then this block is free and merged with free neighbours, its payload is 0xDD, no other live payload byte changes |
| `Heap.FreedLives` | src/heap.c:143-174 | after `kfree` the live blocks are those from before but for the one given back |
| `Heap.KernelHeap.ReleaseBlock` | src/heap.c:153-173 | the writes of `kfree` are those of the specification whose layout `ReleaseHeap` gives |
| `Heap.FreeUndoesMalloc` | src/heap.c:85-174 | `kfree(kmalloc(n))` without a new arena restores every block layout |
| `Heap.FreeAfterGrowth` | src/heap.c:129-174 | with a new arena, `kfree(kmalloc(n))` leaves that arena as one free block |
| `Heap.OneLiveAt` | src/heap.c:143-174 | a pointer belongs to at most one live block |
| `Lifecycle.StepKeeps` | src/task.c:487-715 | every operation keeps: one run ring with current and idle, acyclic child lists that match the parent pointers, no pointer to a reaped task, CR3 of the current task loaded, blocked waiters exactly without ended children, unique PIDs |
| `Lifecycle.YieldKeeps` | src/scheduler.c:108-156 | the same for the scheduler itself; the next task is RUNNING with a full slice |
| `Lifecycle.YieldTarget` | src/scheduler.c:114-131 | the task picked is neither blocked nor ended; it is the current one only when the scan comes around |
| `Lifecycle.RoundRobin` | src/scheduler.c:108-156 | the ring turns to the first task that is neither blocked nor ended, or the idle task; it runs for five ticks on its own CR3, and the tasks that are passed over do not change |
| `Lifecycle.TickKeeps` | src/timer.c:55-62 | the same for the timer interrupt |
| `Lifecycle.EndedKeeps` | src/task.c:695-711 | up to its yield an exit keeps families, wakeups and PIDs |
| `Lifecycle.ExitEffect` | src/task.c:647-715 | an exit leaves a zombie with its exit code, children with no parent and PPID 0, and a parent that is not blocked; nobody else is woken |
| `Lifecycle.BlockingKeeps` | src/task.c:635-637 | a wait blocks only while no child has ended |
| `Lifecycle.ReapedKeeps` | src/task.c:582-586 | after a reap no ring, list or parent pointer refers to the reaped task |
| `Lifecycle.BootInv` | src/scheduler.c:42-90 | the state after `scheduler_init` is good |
| `Lifecycle.OneRunning` | src/scheduler.c:133-149 | over every run exactly the current task is RUNNING, on its own CR3 |
| `Lifecycle.ZombieStays` | src/scheduler.c:118-131 | an ended task never runs again; it stays ended until it is reaped |
| `Lifecycle.StepParentPids` | src/task.c:478-498 | every operation keeps the PPID of a task equal to the PID of its parent |
| `Lifecycle.ParentPidsAlways` | src/task.c:478-498 | so it is over every run |
| `Lifecycle.BootParentPids` | src/scheduler.c:42-90 | and at the start |
| `Lifecycle.WokenFinds` | src/task.c:618-640 | a woken waiter finds an ended child on its first retry |
| `Lifecycle.StepWaiters` | src/task.c:609-641 | only `task_wait` itself changes who is inside it: a task enters when it blocks and leaves when it returns |
| `Lifecycle.StepLogs` | src/task.c:620-632 | exits and returned (PID, code) pairs are those of the operations: a wait returns an ended child of the caller, which is gone afterwards |
| `Lifecycle.WaitsOnce` | src/task.c:609-641 | at the end of every run from the start: no PID was returned by two waits, and every returned PID and code, the last included, match the exit of a child of the waiter that is gone (until PIDs wrap around) |
| `Lifecycle.StepPotential` | src/scheduler.c:108-141 | the potential 5(d-1)+r falls with every tick and yield, rises by 5 with an add, and never rises otherwise |
| `Lifecycle.BoundedWait` | src/scheduler.c:92-141 | a ready task gets the CPU within 5(d-1)+r ticks plus 5 per `scheduler_add` |
| `Lifecycle.BoundIsExact` | src/timer.c:55-62 | no smaller number of ticks is enough when all tasks are ready |
| `Lifecycle.DiedWake` | src/task.c:102-104 | an end without `task_exit` loses a wakeup exactly when the parent is blocked at that moment |
| `Lifecycle.LostWakeup` | src/task.c:102-104 | a reachable kernel in which that happens: a task creates a child, adopts and queues it, waits, and the child ends through its trampoline |
| `Tasks.TaskTable.constructor` | src/scheduler.c:42-90 | bootstrap task with PID 0 and idle task with PID 1, each linked to the other, with slices of five ticks, represent the start state |
| `Tasks.TaskTable.PickNext` | src/scheduler.c:114-131 | the pointer scan finds the first task behind the current one that may run, or the idle task |
| `Tasks.TaskTable.SchedulerYield` | src/scheduler.c:108-156 | the pointer updates refine the abstract yield |
| `Tasks.TaskTable.TimerTick` | src/timer.c:55-62 | the pointer updates refine the abstract tick |
| `Tasks.TaskTable.SchedulerAdd` | src/scheduler.c:92-106 | two pointer writes put the task right behind the current one, and no other field changes |
| `Tasks.TaskTable.InitStruct` | src/task.c:38-64 | the new structure is ready, in no queue and no family, with five ticks and the next PID, which then counts up modulo 2^32 |
| `Tasks.TaskTable.SetParentTo` | src/task.c:487-498 | the child goes to the head of the list of the current task and gets its PID as PPID; no other field changes |
| `Tasks.TaskTable.OrphanChildren` | src/task.c:698-702 | every listed child loses its parent and parent PID, nothing else changes |
| `Tasks.TaskTable.TaskExit` | src/task.c:647-715 | the pointer updates refine the abstract exit, the wakeup of the parent included |
| `Tasks.TaskTable.FindZombie` | src/task.c:619-633 | finds the first ended child in list order |
| `Tasks.TaskTable.Block` | src/task.c:635-637 | refines the abstract blocking step |
| `Tasks.TaskTable.RemoveFromChildrenList` | src/task.c:519-534 | exactly the child leaves the list, whose order is kept; a child that is not listed only loses its sibling link, NULL arguments change nothing |
| `Tasks.TaskTable.RemoveFromScheduler` | src/task.c:539-551 | exactly the task leaves the ring, which stays one cycle in the same order; a task outside the ring and NULL change nothing |
| `Tasks.TaskTable.Unlink` | src/task.c:582-586 | both removals refine the abstract reap: ring, child lists and parents of all other tasks are those without the zombie |
| `Tasks.PointersLive` | src/task.c:519-602 | parent, first child, next task in the queue and, for a task with a parent, next sibling are NULL or live; after `Unlink` the zombie does not count as live |
| `Tasks.OrphansKeepLinks` | src/task.c:698-703 | the restriction to tasks with a parent is needed: `task_exit` leaves the sibling links of orphans as they were |
| `Accounts.SpacesApart` | src/paging.c:61-129 | the user halves of two tasks never share a frame, neither a table nor a page |
| `Accounts.BooksTake` | src/pmm.c:136-149 | taking frames keeps: every used frame has exactly one owner, no owner is gone, every address space is well-formed |
| `Accounts.BooksGive` | src/pmm.c:185-192 | the same for giving frames back |
| `Accounts.BooksArena` | src/heap.c:42-71 | the same for a new heap arena |
| `Accounts.BooksLose` | src/paging.c:120 | the same for frames that are mapped no more and will never be freed |
| `Accounts.BooksNewTask` | src/task.c:359-394 | the same for the birth of a task, whose frames are its stack, PML4 and user half |
| `Accounts.BooksDropTask` | src/task.c:588-601 | the same for the end of a task |
| `Accounts.FramesOfTask` | src/task.c:588-598 | a task owns its stack, its PML4 and its user half, each frame once |
| `Kernel.Resources.AllocStruct` | src/task.c:30-31 | a fresh task structure is no live one; the allocation panics rather than returning NULL |
| `Kernel.Resources.NewSpace` | src/task.c:173-184 | a new PML4 with an empty user half and the kernel half; no owned frame is written |
| `Kernel.Resources.MapPage` | src/task.c:198-204 | mapping keeps all owners right and writes no owned frame outside the new space |
| `Kernel.Resources.LoadElf` | src/task.c:313-315 | loading keeps all owners right and writes no owned frame outside the new space; frames are lost iff two segments share a page |
| `Kernel.Resources.GiveFrame` | src/task.c:591-597 | no ASSERT of `pmm_free_frame` can fail |
| `Kernel.Resources.GiveSpace` | src/task.c:590 | no ASSERT of `pmm_free_frame` can fail under `paging_free_user_pages` |
| `Kernel.Resources.FreeStruct` | src/task.c:601 | `kfree` of a task structure cannot fail, and other structures stay allocated |
| `Processes.StartKernel` | src/scheduler.c:42-90 | from a booted allocator, heap and page tables to the scheduler state of `Lifecycle.Boot` with all owners right |
| `Processes.SchedulerInit` | src/scheduler.c:42-90 | the invariant holds at the start |
| `Processes.KernelState.CreateTask` | src/task.c:28-89 | a kernel task takes one stack frame; panics only when no frame is free |
| `Processes.KernelState.BeginProcess` | src/task.c:165-184 | structure, kernel stack and an empty user half of a new process are in hand; a panic only without free frames |
| `Processes.BuildUserSpace` | src/task.c:186-217 | the user half maps a read-execute page that starts with the code, a zeroed read-write no-execute stack page, and nothing else |
| `Processes.KernelState.CreateUser` | src/task.c:160-271 | the task is created with that user half; the frames that left the free set are its own or a heap arena; no frame owned by anybody else has changed; a panic only for a bad code size or without free frames |
| `Processes.AddStackPage` | src/task.c:327-357 | one iteration: one more zeroed stack page, over a segment if one is in the way; all other pages as before |
| `Processes.KernelState.CreateElf` | src/task.c:273-417 | NULL iff the file is not acceptable, and then every frame is back but for a heap arena; otherwise the user half shows the segments, over them four zeroed stack pages, and nothing else; frames are lost iff a page has two segments or a segment and the stack; no frame owned by anybody else has changed |
| `Processes.OverlapHappens` | src/task.c:273-417 | the same file passes everything that `task_create_elf` asks of it, so frames are lost in the creation of its process |
| `Processes.GiveTask` | src/task.c:588-601 | the order of the frees in `task_reap`: every frame of the task once, no ASSERT fails |
| `Processes.KernelState.Reap` | src/task.c:557-602 | for an ended child of the current task: exactly its frames become free, all other owners are unchanged, and the abstract reap takes place |
| `Processes.KernelState.Wait` | src/task.c:609-641 | -1 if there are no children; else PID (turned into an int) and code of the first ended child, which is reaped; else the task blocks |
| `Processes.KernelState.Exit` | src/task.c:647-715 | an exit keeps all owners right and refines the abstract exit |
| `Processes.KernelState.Yield` | src/scheduler.c:108-156 | a yield keeps all owners right and refines the abstract yield |
| `Processes.KernelState.TimerTick` | src/timer.c:55-62 | a tick keeps all owners right and refines the abstract tick |
| `Processes.KernelState.Add` | src/scheduler.c:92-106 | an add keeps all owners right and refines the abstract add |
| `Processes.KernelState.SetParent` | src/task.c:487-498 | an adoption keeps all owners right and refines the abstract adoption |
| `Processes.FramesComeBack` | src/task.c:160-602 | over any sequence of owner maps related as creations, rejected files and reaps relate them, in which every created task is reaped: the free set is what it was but for heap arenas and exactly the frames that creations lost |
| `Runs.Machine.Execute` | src/task.c:28-715 | each command is exactly the step of the abstract state machine that `Asked` names for it (none for a file that is not acceptable, while the task is inside `task_wait`, or where no caller calls it), with exactly the event on frames that belongs to it; the kernel halts in a creation only, without a free frame or with code of a wrong size |
| `Runs.Machine.Run` | src/task.c:28-715 | any list of commands from any good state: command by command what `Asked` names, up to the end or to a halt in a creation; the steps taken are a run of the abstract state machine, so that all its theorems hold of the kernel; when every task that was created has been reaped, the free set is what it was but for heap arenas and frames lost by overlapping programs |
| `Runs.BootAndRun` | src/scheduler.c:42-90 | the same from boot, with the conclusion that no PID is returned by two waits and every return matches the exit of a child that is gone |
| `Processes.ActiveKept` | src/task.c:588-598 | a reap never frees a frame of another task, the current one in particular: PML4, tables and pages of its user half, kernel stack |
| `Processes.ProcessView` | src/task.c:313-357 | the program of a process from an ELF file sees 16 KB of zeroed stack below 0x70000000 that it may write but not execute, elsewhere the last segment on the page with the rights of its p_flags, and no other page |
| `Processes.UserView` | src/task.c:160-270 | the program of `task_create_user` sees its code at 0x400000, which it may execute but not write, one zeroed page at 0x800000 with the opposite rights, and no other page |
| `Processes.KernelStacksApart` | src/task.c:33-36 | the kernel stacks of all tasks are disjoint, as the context switch requires |
| `Processes.SpaceUntouched` | src/task.c:160-417 | an operation that leaves owned frames alone changes nothing of what a program sees |
| `FatFormat.ChainEnds` | src/fat32.c:44-56 | a chain that has ended stays ended |
| `FatFormat.ClusterPlaces` | src/fat32.c:33-38 | cluster 2 lies at the start of the data area, and clusters lie back to back |
| `FatFormat.StoredChain` | src/fat32.c:40-57 | the chain runs through the clusters that the bytes of the FAT link, and ends behind them |
| `FatFormat.ClampExact` | src/fat32.c:250-253 | the 32-bit limit of a read is the rest of the file exactly when position + n does not wrap around |
| `FatFormat.SplitRead` | src/fat32.c:238-295 | reading a and then b bytes is reading a + b bytes: same data, position and failure; below 2^31 bytes the results add up, errors included |
| `FatFormat.CompleteRead` | src/fat32.c:238-295 | on a complete file a read at position k stores exactly bytes k to min(k + n, size) and returns their number as an int |
| `FatFormat.ReadExact` | src/fat32.c:238-295 | on a complete file a read at position k stores exactly bytes k to min(k + n, size), moves there and returns their number iff that number is below 2^31, and k + n does not wrap around or the cluster chain ends with the file |
| `FatFormat.StoredRead` | src/fat32.c:238-295 | a read of a file whose content lies on the disk, cluster by cluster along the links of the FAT, gives content[k..min(k + n, size)] |
| `FatFormat.SlackRead` | src/fat32.c:250-253 | a read at the end of a file of one byte that returns the 511 bytes behind it |
| `FatFormat.LongRead` | src/fat32.c:238-295 | all 2^32 - 1 bytes of a complete file are read, and the result is -1 as for a failure |
| `FatFormat.NameRoundTrip` | src/fat32.c:64-108 | a listed name parses back to its 11 bytes exactly when it is a short name: no NUL, no lower case, spaces only at the end, no dot in the base |
| `FatFormat.TargetOf` | src/fat32.c:64-108 | base.ext is compared in upper case, padded with spaces to 8 and 3 characters |
| `FatFormat.EntryRoundTrip` | src/fat32.c:180-226 | the 32 bytes of a directory entry are read back: name, attributes, both halves of the first cluster, and size, at byte 32 * k of the root directory read as a file |
| `FatFormat.StoredMatch` | src/fat32.c:180-226 | the first entry in sight with the name is the one that opens, and it is listed with its size and attributes |
| `FatFormat.OnDiskFound` | src/fat32.c:162-236 | a file that is on the disk is found under its name alone, and all of it is there |
| `FatFormat.HelloOnDisk` | src/fat32.c:162-236 | an example of such a disk |
| `FatFormat.ListedOpens` | src/fat32.c:180-235 | with unique names the name that is listed opens its own entry |
| `FatFormat.OpenedIsListed` | src/fat32.c:355-407 | the entry that a name opens is reported by every listing that gets beyond it |
| `Fat32.FatDriver.FatGetEntry` | src/fat32.c:44-56 | the 28-bit little-endian entry, end of chain when the sector cannot be read |
| `Fat32.FatDriver.FatRead` | src/fat32.c:238-295 | result (as an int), bytes stored and new position are those of the specification; other handles and the rest of the buffer are untouched; the handle stays at its position unless position + n wraps around while the chain goes on behind the file |
| `Fat32.StoredHasRead` | src/fat32.c:238-295 | a read through a handle at its position fills the buffer with the content that is on the disk |
| `Fat32.FatDriver.ReadFile` | src/fat32.c:255-294 | the loop stops at the limit, at the end of the chain, or at the first sector that cannot be read; the count is returned as an int |
| `Fat32.FatDriver.ReadPiece` | src/fat32.c:261-291 | one iteration: more bytes of the file, and the handle is where they end |
| `Fat32.FatDriver.CopyPiece` | src/fat32.c:261-281 | the bytes of one sector go to their place, up to the limit or the end of the sector; none iff the sector cannot be read |
| `Fat32.FatDriver.MoveHandle` | src/fat32.c:283-291 | cluster and offset of the handle stay a function of its position across cluster boundaries |
| `Fat32.FatDriver.FatSeek` | src/fat32.c:297-326 | the position is min(offset, size) and the handle is at it, wherever it was before, also when a wrapped read has left it behind its file |
| `Fat32.FatDriver.SeekTo` | src/fat32.c:309-323 | skipping whole clusters ends in the cluster of the position, or at the end of the chain |
| `Fat32.FatDriver.FatClose` | src/fat32.c:328-335 | exactly this handle becomes free |
| `Fat32.FatDriver.FatOpen` | src/fat32.c:162-236 | opens the first visible matching entry before the end marker in the lowest free slot at position 0; -1 iff there is no slot or no such entry, on every volume on which the scan stops |
| `Fat32.FatDriver.LoadFile` | src/task.c:428-461 | open, size, read and close give a file that is on the disk, byte for byte; what is given is always the whole file of the first matching entry, but for a file of 2^32 - 1 bytes with an unreadable sector; no handle in use changes |
| `Fat32.EndStops` | src/fat32.c:176-233 | a root directory whose chain ends stops every scan |
| `Fat32.FatDriver.SearchSector` | src/fat32.c:187-229 | one directory sector: a match, the certainty that there is none, or nothing yet |
| `Fat32.FatDriver.FatListRoot` | src/fat32.c:345-411 | reports exactly the visible entries before the end, in order; -1 iff a sector cannot be read, on every volume on which the scan stops |
| `Fat32.NameMatch` | src/fat32.c:64-108 | matches iff the 11 bytes are the upper-case, space-padded form of the path |
| `Fat32.PrintName` | src/fat32.c:383-399 | builds base name, dot and extension without the padding |
| `EventRing.ProduceHolds` | src/xhci.c:728-736 | an event written by the controller while there is room joins the pending ones |
| `EventRing.PollHolds` | src/xhci.c:412-435 | a poll returns the oldest pending event, and nothing iff none is pending; the cycle bit is the parity of the lap |
| `EventRing.RingIsQueue` | src/xhci.c:412-435 | over any interleaving with at most 256 outstanding events the ring answers like a queue: in order, each event once, over any number of wraps |
| `EventRing.BootRun` | src/xhci.c:728-736 | the same from the initialised ring |
| `EventRing.RoomIsNeeded` | src/xhci.c:420-433 | after one more event the next poll is right exactly when fewer than 256 were outstanding; with 256 the ring looks empty and stays so |
| `EventRing.EventRingConsumer.PollEvent` | src/xhci.c:412-435 | index and cycle state in place are those of the specification |
| `ContextSwitch.Processor.Switch` | src/context_switch.S:8-23 | the pushes, the exchange of stack pointers and the pops are the abstract switch |
| `ContextSwitch.Processor.PrepareStack` | src/task.c:65-86 | the initial frame is the one of the specification |
| `ContextSwitch.SwitchSaves` | src/context_switch.S:8-14 | what a switch stores for the old task is the context it has to go on with |
| `ContextSwitch.NewTaskStarts` | src/task.c:65-86 | a new task pops seven words: zero registers, the trampoline as return address, an empty stack; only its own stack has been written |
| `ContextSwitch.ContextKept` | src/context_switch.S:8-23 | over any run of work, switches, creations and reaps, stacks being used again, the stored context of a task that stays switched out does not change |
| `ContextSwitch.Resumed` | src/context_switch.S:8-23 | a resumed task gets back its registers, stack pointer and return address |
| `ContextSwitch.Started` | src/task.c:65-86 | the first switch to a new task lands in its trampoline |
| `ContextSwitch.StackReused` | src/task.c:592-597 | the stack of a reaped task may become that of a new one |

## Left out

- Interleavings inside one kernel operation: every operation is one atomic step, so the window of `task_wait` between its scan and its blocking is not modelled.
- The ends of tasks through `task_trampoline` and user faults, except for the statement of `Lifecycle.DiedWake`; the waiting properties speak of tasks that end through `task_exit`.
- PID wrap-around: the 32-bit counter wraps in the model, but uniqueness of PIDs and of wait results is stated until the first wrap.
- Typed memory: a frame holds page-table words or bytes, and heap memory and task structures are kept apart from frames; a byte written to one is never read as another. Zeroing loops over a frame are one assignment, and a frame that becomes a user code page keeps unspecified bytes behind the code.
- `Heap.KernelHeap.KFree`: contents that clients write into their heap payloads are not modelled, and so neither is the chance that such bytes look like a block header; magic numbers are part of the header.
- `Tasks.TaskTable.SetParentTo`: the parent is the current task and the child a live one without a parent, as in the only call (src/shell.c:243).
- `Processes.KernelState.SetParent`: the same.
- `Processes.KernelState.Reap`: the task is an ended child of the current one, as in the only call (src/task.c:630).
- `Elf.LoadInto`: a file must not be one that is accepted although a file range wraps around 64 bits; loading then reads memory outside the file, whose contents the model does not have.
- `Kernel.Resources.LoadElf`: the same.
- `Processes.KernelState.CreateElf`: the same.
- `Fat32.FatDriver.FatRead`: the handle must lie within its file; after a read that has wrapped around, a seek comes first.
- `Runs.Machine.Run`: what a woken task does next is left to the list of operations, except that a task inside `task_wait` goes on there; the files are those of `Processes.KernelState.CreateElf`.
- Accessed and dirty bits set by the processor, TLB flushing, and translation caches.
- Overflow in `ALIGN_UP` and in the arena size; files whose program header entries are shorter than 56 bytes or whose program header table wraps around the 64-bit range.
- `Paging.Machine.FreeBelow`: the four nested loops are one recursive method.
- Task fields without influence on scheduling or memory (`entry`, `id`, `user_rsp`, `user_rip`, `kernel_rsp`), the `in_scheduler` guard, interrupt flags, and the TSS.
- The kernel half of the page tables is taken as it is after boot; later device mappings are not modelled.
- `Fat32.FatDriver.FatOpen`: there must be an entry at which the scan stops: a match, the end marker, an unreadable sector or the end of the chain; on a cyclic root directory without one the original does not return. The same goes for `Fat32.FatDriver.FatListRoot`.
- `Fat32.FatDriver.FatListRoot`: the callback is a list of its arguments.
- `fat_mount`: the volume parameters are given; the cluster size is assumed not to be 0.
- `task_create_from_path` apart from its file part, the descriptors of the virtual file system, `elf_load` (the same algorithm on the current address space) and `elf_load_at`.
- `Fat32.FatDriver.LoadFile`: the buffer is a fresh array, not a heap block; as for `Fat32.FatDriver.FatOpen`, the scan must stop.
- The controller side of xHCI apart from the event ring producer; the write of the dequeue pointer register.
- Drivers, console, shell, interrupt and system call entry, and user programs: hardware traffic or easy members.
- `EventRing.EventRingConsumer.PollEvent`: the original returns a pointer into the ring; the model returns the entry as it is at that moment.
- `Heap.KernelHeap.KMalloc`: a heap without its first arena is not modelled; the original would follow a null pointer.
- Frame 0 is taken not to be free, so that the address 0 can mean failure; by `Pmm.FrameAllocator.Init` this is so unless a USABLE entry reaches frame 0 outside the bitmap and the kernel image.
- The bootstrap task runs on the boot loader's stack, which belongs to the reserved frames.
- Serial logging.
