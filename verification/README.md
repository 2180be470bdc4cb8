# UlmerOS kernel core

A model of the parts of the UlmerOS kernel (x86_64) that carry its hard invariants, with
proofs of what the code promises.

- **Address spaces and frames.** Four-level page tables (section 4.5 of the Intel SDM,
  volume 3A) live in frames from a bitmap allocator. `PageTables` is the walk, with the permissions its four entries give together, and the operations
  as functions on a state of memory, used frames and spaces, with an ownership record that gives
  non-aliasing; `PageTableProofs`, `AddressSpaces` and `AddressSpaceRuns` prove what each
  operation and every run keeps; `Teardown` covers the order in which a space is freed.
  `Bitmaps`, `FrameAllocator` and `VSpaces` are the same operations in place, each proved
  to compute its function. `IdentityMap` is the boot mapping.
- **Kernel heap.** `HeapBlocks` is the heap as a row of blocks, `KernelHeap` the linked headers
  in place, `KernelBreak` the break over the page tables.
- **Scheduling and process life.** `Scheduling` and `SchedulingRuns` are the state machine and its
  runs, `MeantLoop` and `ExitRace` what happens when `sys_exit` is interrupted, `Schedulers`,
  `TaskLists` and `LinkedLists` the code on linked lists, `Wakeups` the wait
  for the disk interrupt. `UserPages`, `UserStacks` and `Processes` are stacks with lazy pages
  and the end of a process.
- **Lazy user memory and files.** `UserHeap`, `Segments` and `Loaders` are the break and the program
  pages; `UserMemory` puts program, heap and stacks of a process together under one page fault
  handler, and `UpperPages` says what a fault or a shrink above the user half does; `AtaDisk`, `FileContent`
  and `Ext2` are a file read down to the sectors, `Ext2Files` what the file should read as.

`Layout`, `Wrappers`, `PageNumbers`, `Bytes` and `Division` hold what several of them use.
`dafny verify dfyconfig.toml` checks everything.

## Where the code does less than it seems

Each of these keeps the code as it is and has the exact condition under which it does meet
the property.

- `vspace_map` does nothing for a present page, and the frame given to it is then lost: frames
  are conserved over a space's life if and only if no present page is mapped (`LifeConserves`,
  `TwoMapsLeak`).
- `kbrk` loses a frame exactly when a break that stands at the start of a mapped page grows
  (`Kbrk`, `BoundaryLeaks`).
- A kernel top-level slot opened later is missing from the spaces alive at that moment
  (`StepUpToDate`, `RunUpToDate`, `OpenedSlotIncoherent`).
- The carry of `id_map` breaks the identity map above 1 GiB (`Boot`, `SkippedMap`).
- `task_schedulable` removes the running task where its comment means the examined one
  (sched.c:120-122). The two agree if and only if every killed task before the first that can run
  is the running one (`LoopsExactly`). That holds in every run in which the two writes of
  `sys_exit` are one step (`AlwaysMeant`, `RunsAreSafe`); a decision between them leads, from every
  state, to a stop or to the loss of a task that is not killed (`SplitExitWrecks`, with one such
  run in `SplitExitFails`).
- `stack_load` counts a page that is mapped already (`LoadAccounted`, `PageFault`). `delete_stack`
  trusts the count: with one too small pages stay, with one too large it goes on below the slot
  (`UnwindExactly`).
- `create_stack` takes a new slot without a look at what is mapped there (`CreateExactly`).
- `sys_sbrk` has no upper bound. A heap that has grown over the stacks takes their pages along when
  it shrinks (`BreakLowered`, `HeapOverStack`) and maps pages the stacks do not count
  (`AddedExactly`); while the regions lie one above the other neither happens (`ApartLowers`,
  `ApartUpsets`). In the kernel half `heap_load` maps into tables that are not the space's own
  (`ServedExactly`, `HeapIntoKernel`, `KernelHeapBreaks`) and the shrink loop unmaps kernel pages
  (`ShrinkExactly`).
- Sector addresses lose everything above 48 bits on the way to the drive (`SeenExactly`). So an
  indirect block that cannot be read, for which `ext2_get_file_block` returns all ones, surfaces as
  an error only when the sectors right before the partition cannot be read either; otherwise
  `ext2_read` succeeds with foreign bytes (`LostIndirectExactly`, `ForeignByte`).
- A hole in a file reads as block 0 instead of zeros (`SparseExactly`, `SparseByte`), in a program
  too (`LazyIsEager`, `FineByte`).
- `ext2_read` past the end of the file computes a wrapped length (`TruncatedExactly`), and
  `sys_sbrk` out of the address space a wrapped break (`TargetExactly`, `BreakMoved`).
- The rounding in `load_heap_brk` wraps for a segment that ends in the last page of the address
  space; the heap then comes to lie over the program (`BreakExactly`, `ServedTwice`).
- A LOAD segment in the kernel half is served like any other, into tables that all spaces share
  or that no one frees (`ServedExactly`, `KernelHeaderBreaks`).
- `loader_map_page` reads p_memsz bytes: what lies behind a segment in the file shows where the
  program header (Program Header chapter of the System V gABI) asks for zeros (`LoadedExactly`).

## Model

| member | source | states |
|---|---|---|
| `VSpaces.VirtualMemory.ResolveMapping` | kernel/arch/x86_64/x86_64/vspace.c:118-185 | each frame the walk reports is the node of the four-level tree at the matching prefix of the page number, absent from the first absent entry on |
| `VSpaces.VirtualMemory.Map` | kernel/arch/x86_64/x86_64/vspace.c:187-232 | the written tables are those of the abstract map step, the invariant is kept, at most three frames are taken |
| `VSpaces.VirtualMemory.Unmap` | kernel/arch/x86_64/x86_64/vspace.c:234-252 | the written tables are those of the abstract unmap step; the result says whether the page was mapped; a page that is not mapped may be any |
| `VSpaces.VirtualMemory.Create` | kernel/arch/x86_64/x86_64/vspace.c:99-106 | the lowest free frame becomes the root of the new space, and the state is the abstract create step |
| `VSpaces.VirtualMemory.Delete` | kernel/arch/x86_64/x86_64/vspace.c:274-323 | every frame of the space is freed, each while still in use, so none twice; a space deleted before is left alone |
| `VSpaces.VirtualMemory.FreeTree` | kernel/arch/x86_64/x86_64/vspace.c:286-319 | the four nested loops free exactly the frames that lie in slots 0 to 255 of the tree, the root apart |
| `VSpaces.VirtualMemory.FreePtbl` | kernel/arch/x86_64/x86_64/vspace.c:306-313 | the innermost loop frees exactly the pages of one table |
| `VSpaces.VirtualMemory.UpdateKernelMapping` | kernel/arch/x86_64/x86_64/vspace.c:86-97 | the space translates every page of the upper half as the kernel does; no frame but its root is written |
| `Teardown.FreedLeave` | kernel/arch/x86_64/x86_64/vspace.c:307-318 | when the loop over a table is done, the table itself is in use, not yet freed, and the only frame of its subtree left |
| `Teardown.FreedAll` | kernel/arch/x86_64/x86_64/vspace.c:286-320 | past slot 255 the frames freed and the root are all frames of the space |
| `AddressSpaces.EnsureTablesCorrect` | kernel/arch/x86_64/x86_64/vspace.c:193-218 | creating the missing tables changes no translation of any space, and takes exactly the frames that join the tree |
| `AddressSpaces.MapPageCorrect` | kernel/arch/x86_64/x86_64/vspace.c:187-232 | an absent page is added with its frame and shows exactly its flags over the four entries of the walk together, and nothing else changes in any space; a present page makes the call a no-op; the frame accounts of both cases |
| `AddressSpaces.OpenLeaf` | kernel/arch/x86_64/x86_64/vspace.c:193-218 | outside the identity window the permissions of a page, taken over the whole walk, are those of its own entry: the entries above it allow everything |
| `AddressSpaces.UnmapCorrect` | kernel/arch/x86_64/x86_64/vspace.c:234-252 | exactly that page disappears and exactly its frame is freed; an absent page makes the call a no-op |
| `AddressSpaces.CreateCorrect` | kernel/arch/x86_64/x86_64/vspace.c:86-106 | a new space maps no lower-half page, translates every upper-half page as the kernel does, owns one frame and disturbs no other space |
| `AddressSpaces.DeleteCorrect` | kernel/arch/x86_64/x86_64/vspace.c:274-323 | only frames in use are freed, none of them the kernel's, and every other tree stays whole |
| `AddressSpaceRuns.MapTranslations` | kernel/arch/x86_64/x86_64/vspace.c:187-232 | mapping leaves every other page of every space, and the same lower-half page of every other space, translating as before |
| `AddressSpaceRuns.UnmapTranslations` | kernel/arch/x86_64/x86_64/vspace.c:234-252 | unmapping does the same |
| `AddressSpaceRuns.StepCorrect` | kernel/arch/x86_64/x86_64/vspace.c:99-323 | every operation keeps tree ownership and non-aliasing; a frame leaves the accounts exactly when a present page is mapped again |
| `AddressSpaceRuns.RunCorrect` | kernel/arch/x86_64/x86_64/vspace.c:99-323 | over every run of create, map, unmap and delete the frames outside the trees grow by exactly the number of maps of present pages |
| `AddressSpaceRuns.RunIsolated` | kernel/arch/x86_64/x86_64/vspace.c:187-252 | any run of maps and unmaps on one space leaves the trees and translations of all others as they were |
| `AddressSpaceRuns.LifeConserves` | kernel/arch/x86_64/x86_64/vspace.c:99-323 | create, any run of maps and unmaps, delete: the used frames are exactly those of the start if and only if no present page was mapped; the other spaces are untouched either way |
| `AddressSpaceRuns.TwoMapsLeak` | kernel/arch/x86_64/x86_64/vspace.c:220 | from every state, a life in which one page is mapped twice costs a frame |
| `AddressSpaceRuns.UpperView` | kernel/arch/x86_64/x86_64/vspace.c:86-106 | what a space sees of the kernel half, slot by slot |
| `AddressSpaceRuns.StepUpToDate` | kernel/arch/x86_64/x86_64/vspace.c:187-252 | one step keeps a space in step with the kernel half if and only if it opens no kernel top-level slot |
| `AddressSpaceRuns.RunUpToDate` | kernel/arch/x86_64/x86_64/vspace.c:86-252 | the same if and only if over every run |
| `AddressSpaceRuns.KernelHalfCoherent` | kernel/arch/x86_64/x86_64/vspace.c:86-323 | after every run without a newly opened slot, a space and the kernel translate every upper-half page identically |
| `AddressSpaceRuns.OpenedSlotIncoherent` | kernel/arch/x86_64/x86_64/vspace.c:86-97 | a new kernel page shows in a live space if and only if that space already had the top-level slot |
| `UpperPages.ServedExactly` | kernel/kernel/sched/loader.c:236-255 | a fault served by mapping a fresh frame keeps the trees apart, whoever owns what, and the other spaces as they were, if and only if the page lies in the user half |
| `UpperPages.KernelHeaderBreaks` | kernel/kernel/sched/loader.c:236-255 | a program header in the kernel half is served, and in every state that ends the separation |
| `UpperPages.ShrinkExactly` | kernel/kernel/mm/sbrk.c:36-46 | a loop of unmapping, over any page numbers, keeps the trees apart, whoever owns what, and the other spaces as they were, if and only if no page it meets in the upper half is mapped |
| `UpperPages.GoesFromKernel` | kernel/arch/x86_64/x86_64/vspace.c:234-252 | a mapped page of the upper half that is unmapped in a user space is unmapped in the kernel |
| `Bitmaps.Bitmap.Set` | kernel/libutil/bitmap.c:25-33 | exactly one bit changes |
| `Bitmaps.Bitmap.Clr` | kernel/libutil/bitmap.c:35-43 | exactly one bit changes |
| `Bitmaps.Bitmap.FindFree` | kernel/libutil/bitmap.c:45-67 | the lowest clear bit, or -1 exactly when all are set |
| `Bitmaps.Bitmap.FindNFree` | kernel/libutil/bitmap.c:69-100 | the lowest n-aligned window of n clear bits, or -1 exactly when there is none |
| `Bitmaps.SearchClear` | kernel/libutil/bitmap.c:78-94 | a clear bit starts an aligned window, extends one, or is passed over, and every other aligned window met so far holds a set bit |
| `FrameAllocator.PageAllocator.AllocPage` | kernel/kernel/mm/page.c:16-25 | the lowest free frame, cleared, and no other frame changes |
| `FrameAllocator.PageAllocator.FreePage` | kernel/kernel/mm/page.c:52-63 | exactly the given frame becomes free; a number out of range changes nothing |
| `FrameAllocator.PageAllocator.AllocDmaRegion` | kernel/kernel/mm/page.c:27-50 | the lowest sixteen free frames on a 64 KiB boundary inside memory and below the limit are taken; nothing happens exactly when there are none |
| `FrameAllocator.WindowIsRegion` | kernel/kernel/mm/page.c:27-39 | with the padding bits set, clear windows of the bitmap and free regions of memory are the same thing |
| `FrameAllocator.RegionExactly` | kernel/kernel/mm/page.c:27-50 | such a region is 64 KiB on its own boundary that ends before 4 GiB, all sixteen frames inside memory and free |
| `IdentityMap.TurnStep` | kernel/arch/x86_64/boot32/paging.c:25-50 | one turn of the loop keeps the description of the tables, below 1 GiB and beyond, and counts the frames taken |
| `IdentityMap.IdMap` | kernel/arch/x86_64/boot32/paging.c:8-51 | the tables hold one entry per page up to 262144 pages; beyond, the carry has skipped a slot |
| `IdentityMap.PagingInit` | kernel/arch/x86_64/boot32/paging.c:53-73 | slot 256 of the root equals slot 0, over the tables of id_map |
| `IdentityMap.BootFrame` | kernel/arch/x86_64/boot32/paging.c:17-19 | the frame behind a 32-bit address is the one taken, because no more are in use than have such an address |
| `IdentityMap.VspaceSetup` | kernel/arch/x86_64/x86_64/vspace.c:73-84 | no page of the lower half is mapped, the upper slots and every other frame stay |
| `IdentityMap.Boot` | kernel/arch/x86_64/boot32/paging.c:8-65 | with the frames it takes below 4 GiB, paging_init then vspace_setup: the walk of ppn_to_virt(p) yields p for all p below the page count if and only if there are at most 262144 pages; then nothing else is mapped, the lower half is empty and the virtual memory invariant holds |
| `IdentityMap.SkippedMap` | kernel/arch/x86_64/boot32/paging.c:37-42 | above that the page at 1 GiB is not mapped |
| `KernelBreak.Break.Kbrk` | kernel/kernel/mm/heap.c:76-106 | every byte below the new break is in a mapped page with the permissions of the heap, no page beyond the break's own is mapped, and exactly one frame goes astray when a break at the start of a mapped page grows, none otherwise |
| `KernelBreak.BoundaryLeaks` | kernel/kernel/mm/heap.c:92-103 | a break that has grown to a page boundary costs a frame when it grows again |
| `KernelBreak.BackedBytes` | kernel/kernel/mm/heap.c:76-106 | every address below the break lies in a page that the kernel, and only the kernel, can read and write and that cannot be executed; no page beyond the break's own is mapped |
| `KernelBreak.BackedGrows` | kernel/kernel/mm/heap.c:92-103 | the pages mapped keep the heap backed, and only the first of them can have been mapped before |
| `KernelBreak.BackedShrinks` | kernel/kernel/mm/heap.c:82-91 | the pages unmapped keep the heap backed |
| `KernelHeap.Heap.CropBlock` | kernel/kernel/mm/heap.c:108-135 | the header list is that of the row of blocks with one block split |
| `KernelHeap.Heap.Search` | kernel/kernel/mm/heap.c:149-170 | the search stops at the first fitting block |
| `KernelHeap.Heap.Kmalloc` | kernel/kernel/mm/heap.c:140-199 | headers, list ends and break are those of the abstract allocation, and the payload address returned is that of the block handed out |
| `KernelHeap.Heap.MergeBlocks` | kernel/kernel/mm/heap.c:201-216 | the header list is that of the row with two neighbours joined |
| `KernelHeap.Heap.Kfree` | kernel/kernel/mm/heap.c:218-265 | headers, list ends and break are those of the abstract release of the block at the pointer |
| `KernelHeap.Heap.TrimEnd` | kernel/kernel/mm/heap.c:245-262 | the free blocks at the end go and the break follows |
| `HeapBlocks.MallocKeeps` | kernel/kernel/mm/heap.c:147-199 | allocation keeps tiling, no two free neighbours, last block in use |
| `HeapBlocks.MallocLive` | kernel/kernel/mm/heap.c:108-199 | one block joins those in use, large enough, at the lowest fitting address, at the break exactly when nothing fits; it is split exactly when more than a header is to spare; no other block in use moves or changes size |
| `HeapBlocks.PayloadsDisjoint` | kernel/kernel/mm/heap.c:147-199 | blocks in use never overlap |
| `HeapBlocks.HeadersApart` | kernel/kernel/mm/heap.c:8-22 | byte by byte, each byte of a header belongs to exactly one of its fields, and no byte of a payload to a field of any header |
| `HeapBlocks.KfreeCorrect` | kernel/kernel/mm/heap.c:218-265 | exactly one block leaves those in use, the others stay in place and size, and the heap is well formed again |
| `HeapBlocks.TrimOnce` | kernel/kernel/mm/heap.c:245-262 | the trim loop runs at most once |
| `HeapBlocks.RunCorrect` | kernel/kernel/mm/heap.c:147-265 | over every run of kmalloc and kfree the heap is well formed, and with nothing in use it is empty with the break at its start |
| `HeapBlocks.FreeAll` | kernel/kernel/mm/heap.c:218-265 | freeing all blocks in use, in any order, empties the heap and restores the break |
| `LinkedLists.List.Add` | kernel/libutil/list.c:33-50 | the payload is appended, the index of its place returned, links and ends agree |
| `LinkedLists.List.GetIndex` | kernel/libutil/list.c:52-69 | the item at the index, or none past the end |
| `LinkedLists.List.Find` | kernel/libutil/list.c:165-178 | the first item with the payload, or none |
| `LinkedLists.List.ItRemove` | kernel/libutil/list.c:147-163 | exactly that item leaves and the order of the rest stays |
| `LinkedLists.List.RotateFront` | kernel/libutil/list.c:109-123 | the first item becomes the last |
| `Schedulers.Scheduler.constructor` | kernel/kernel/sched/sched.c:23-42 | the state at start-up, cleanup task before idle task |
| `Schedulers.Scheduler.TaskSchedulable` | kernel/kernel/sched/sched.c:106-129 | the answer and the state of the abstract test, including the removal of the running task |
| `Schedulers.Scheduler.GetNextTask` | kernel/kernel/sched/sched.c:44-59 | the loop ends with the abstract loop's task and run list |
| `Schedulers.Scheduler.Schedule` | kernel/kernel/sched/sched.c:61-104 | the abstract decision, the scheduling invariant kept |
| `Schedulers.Scheduler.Insert` | kernel/kernel/sched/sched.c:137-144 | the abstract insertion |
| `Schedulers.Scheduler.SysExit` | kernel/kernel/sched/proc.c:121-132 | the running task's process is dead and the task killed, no other process and no other task changes, and none of the process' threads, however many there are, can run; the two writes are one step, and for a task that may exit the scheduling invariant stays |
| `SchedulingRuns.ExitExactly` | kernel/kernel/sched/proc.c:121-132 | the same for the step on states |
| `SchedulingRuns.DeadForever` | kernel/kernel/sched/sched.c:113-123 | over every run no thread of a dead process is given the processor again |
| `Schedulers.Scheduler.TaskKill` | kernel/kernel/sched/task.c:72-77 | task by task: the running task is killed and otherwise as it was, no other changes; when a kernel task may exit the scheduling invariant stays |
| `Scheduling.LoopRotates` | kernel/kernel/sched/sched.c:44-59 | with no killed task in front, the loop only rotates the list up to the first task that can run |
| `MeantLoop.LoopsExactly` | kernel/kernel/sched/sched.c:44-59 | the loop as written equals the loop its comment means, which removes the examined task, if and only if every killed task before the first that can run is the running one |
| `MeantLoop.AlwaysMeant` | kernel/kernel/sched/sched.c:106-129 | with exit as one step every decision is the one that is meant |
| `Scheduling.TickExactly` | kernel/kernel/sched/sched.c:61-104 | a decision dispatches the first task that can run, and of the run list only a killed running task is missing afterwards |
| `SchedulingRuns.PicksFirst` | kernel/kernel/sched/sched.c:44-129 | a decision goes to the first task of the run list that runs, waits for no interrupt and belongs to no dead process; every task before it is killed, waits or belongs to one |
| `Scheduling.MovesUp` | kernel/kernel/sched/sched.c:44-104 | a task behind the dispatched one moves up |
| `SchedulingRuns.StepKeeps` | kernel/kernel/sched/sched.c:44-144 | no step stops the kernel and each keeps the invariant |
| `SchedulingRuns.ReapSafe` | kernel/kernel/sched/tasklist.c:63-88 | what the cleanup task finds killed is neither running nor in the run list |
| `SchedulingRuns.RunsAreSafe` | kernel/kernel/sched/tasklist.c:63-88 | from start-up, no run stops the kernel, and after every run no reapable task is running or in the run list |
| `SchedulingRuns.KilledLeaves` | kernel/kernel/sched/sched.c:71-83 | after one decision exactly the killed running task is off the run list |
| `SchedulingRuns.BoundedWaiting` | kernel/kernel/sched/sched.c:44-104 | a task at place k that can run at every decision is dispatched within k+1 decisions whatever the others do |
| `SchedulingRuns.NewTaskServed` | kernel/kernel/sched/task.c:28-73 | a new task that has been inserted and can run is dispatched within as many decisions as the run list was long, and one |
| `SchedulingRuns.WaitHolds` | kernel/kernel/sched/task.c:79-101 | over every run no decision is for a task that has begun to wait until it is signalled |
| `SchedulingRuns.NewTaskReady` | kernel/kernel/sched/task.c:28-73 | a new task may be inserted, and then can run |
| `SchedulingRuns.SignalWakes` | kernel/kernel/sched/task.c:79-82 | the signal makes exactly that task ready, if it is neither killed nor of a dead process |
| `ExitRace.SplitExitWrecks` | kernel/kernel/sched/proc.c:127-131 | from every state in order: after a decision between the two writes of sys_exit, whatever the tasks do, within as many further decisions as the exiting task has places before it, and one, the kernel stops or loses a task that is not killed |
| `ExitRace.TickWrecks` | kernel/kernel/sched/sched.c:113-123 | one decision while a task is half dead: a stop, a loss, or the task comes nearer |
| `SchedulingRuns.SplitExitFails` | kernel/kernel/sched/sched.c:113-123 | a concrete run: with decisions between the two writes of sys_exit the idle task is removed in place of the exiting one and the kernel stops |
| `TaskLists.TaskList.Pass` | kernel/kernel/sched/tasklist.c:63-88 | the killed tasks leave the list in order and are handed to task_delete, the others stay in order, the count follows |
| `TaskLists.TaskList.Insert` | kernel/kernel/sched/tasklist.c:95-101 | the task is appended and counted |
| `TaskLists.PassIsReaps` | kernel/kernel/sched/tasklist.c:63-88 | a whole pass is a run of single reap steps, each allowed when its turn comes |
| `Wakeups.StepGood` | kernel/kernel/sched/task.c:79-101 | no step of reader, handler or scheduler breaks the wait invariant or stops the kernel |
| `Wakeups.NoLostWakeup` | kernel/drivers/pc/ata.c:256-355 | after every interleaving, data ready implies that the reader can run, and the wait is left only with the data ready |
| `Wakeups.OwnInterrupt` | kernel/drivers/pc/ata.c:318-356 | over every run, between the start of a read and the end of its wait an interrupt has come: no read takes the flag of an earlier transfer for its own |
| `Wakeups.InterruptAfterStart` | kernel/drivers/pc/ata.c:318-356 | when none came between the start of the read and the start of the device, it came after the latter |
| `Wakeups.IrqAllowed` | kernel/drivers/pc/ata.c:256-275 | the task to signal exists throughout a transfer |
| `Wakeups.WakeupServed` | kernel/kernel/sched/task.c:79-101 | a reader whose data is ready is dispatched, or done, within as many decisions as its place in the run list |
| `UserPages.MapUserPage` | kernel/arch/x86_64/x86_64/vspace.c:187-232 | alloc_page and vspace_map on a user page: an absent page appears with the lowest free frame, a mapped one stays and the frame goes astray; nothing else changes |
| `UserPages.UnmapUserPage` | kernel/arch/x86_64/x86_64/vspace.c:234-252 | that page disappears, nothing else changes, one frame is freed exactly when it was mapped |
| `UserStacks.StackList.CreateStack` | kernel/kernel/sched/userstack.c:6-39 | the first free slot is reused or a new one appended; positions, ranges and page counts stay right if and only if a new slot lies over no mapped page |
| `UserStacks.StackList.StackLoad` | kernel/kernel/sched/userstack.c:41-63 | a page is mapped and counted in exactly the stack in use that holds it; an absent one can then be written from user mode and not executed; otherwise nothing changes; the stacks stay in order if and only if no mapped page is loaded again |
| `UserStacks.StackList.DeleteStack` | kernel/kernel/sched/userstack.c:65-95 | every page of the stack is unmapped, no other page of any space changes, exactly the counted frames are freed, free slots at the end go |
| `UserStacks.StackList.Unwind` | kernel/kernel/sched/userstack.c:75-80 | for right and for wrong counts: the loop ends on the page at which the count is used up, every page it has passed is unmapped, exactly as many frames are freed as were counted, and no other page of any space changes |
| `UserStacks.UnwindExactly` | kernel/kernel/sched/userstack.c:75-80 | that page lies inside the slot, and all pages of the slot are unmapped, if and only if the count was the number of its mapped pages |
| `UserStacks.SlotsApart` | kernel/kernel/sched/userstack.c:22-35 | stacks are a whole stack of guard pages apart and below the user break |
| `UserStacks.StackBytes` | kernel/kernel/sched/userstack.c:22-35 | the 32 MiB below the initial stack pointer, and no other bytes, lie in the slot |
| `UserStacks.LoadAccounted` | kernel/kernel/sched/userstack.c:49-59 | the count matches the mapped pages after stack_load if and only if the page was not mapped before |
| `UserStacks.LoadExactly` | kernel/kernel/sched/userstack.c:49-59 | the same for all stacks of a process |
| `UserStacks.AddedExactly` | kernel/kernel/sched/userstack.c:41-63 | a page mapped by someone else leaves the stacks in order if and only if it was mapped before or lies in no slot |
| `UserStacks.ClearedExactly` | kernel/kernel/sched/userstack.c:41-80 | pages unmapped by someone else leave the stacks in order if and only if no mapped page of a slot is among them |
| `UserStacks.CreateExactly` | kernel/kernel/sched/userstack.c:6-39 | create_stack keeps the stacks in order if and only if the slot it takes lies over no mapped page; a slot used again never does |
| `UserStacks.CreatedInUse` | kernel/kernel/sched/userstack.c:6-39 | create_stack adds one index that was not in use |
| `UserStacks.DeletedInUse` | kernel/kernel/sched/userstack.c:65-95 | delete_stack gives up exactly one index, and the list is empty when none is left |
| `Processes.Process.StartThread` | kernel/kernel/sched/proc.c:64-71 | a thread joins with a stack no other thread has; the process stays in order if and only if a new slot lies over no mapped page |
| `Processes.Process.DeleteThread` | kernel/kernel/sched/tasklist.c:30-61 | the thread and its stack go; the process goes exactly with its last thread, its space deleted and its frames all accounted for |
| `Processes.Process.DeleteProcess` | kernel/kernel/sched/tasklist.c:15-28 | under the two emptiness assertions the space is deleted |
| `Processes.StartPaired` | kernel/kernel/sched/proc.c:64-71 | threads and stacks in use stay in bijection |
| `Processes.RemovePaired` | kernel/kernel/sched/tasklist.c:30-61 | the thread's stack is in use when it is deleted, the bijection stays, and the last thread leaves no stack |
| `Processes.TearDownAll` | kernel/kernel/sched/tasklist.c:15-61 | deleting all threads in any order finds each stack in use once and empties both lists |
| `UserHeap.Heap.Sbrk` | kernel/kernel/mm/sbrk.c:10-50 | the break goes where 64-bit words take it, with no upper bound; growing changes no page; shrinking unmaps exactly the pages that hold an address below the old break and none below the new, and leaves the other spaces and the upper half as they were |
| `UserHeap.Heap.HeapLoad` | kernel/kernel/mm/sbrk.c:52-66 | a page is served exactly for addresses between minimum and break; an absent one can then be written and executed from user mode, one that is mapped stays and costs a frame |
| `UserHeap.TargetExactly` | kernel/kernel/mm/sbrk.c:22-26 | in 64-bit words the break lands where it should if and only if the move stays in the address space |
| `UserHeap.ShrinkInUser` | kernel/kernel/mm/sbrk.c:36-46 | from a break below the user break exactly the pages of the range go, and no frame is lost |
| `UserHeap.HeapIntoKernel` | kernel/kernel/mm/sbrk.c:22-26 | two growths bring the break into the kernel half without a wrap |
| `UserHeap.KernelHeapBreaks` | kernel/kernel/mm/sbrk.c:52-66 | an address there is one of the heap, and in every state serving it ends the separation of the spaces |
| `AtaDisk.ProgramRoundTrip` | kernel/drivers/pc/ata.c:330-338 | the drive decodes the count that was meant and the low 48 bits of the address, whatever the registers held before |
| `AtaDisk.Transfer` | kernel/drivers/pc/ata.c:301-372 | a chunk stays in one 64 KiB window below 4 GiB with a length the descriptor can hold; it is read where the programmed registers say, and the buffer gains exactly its bytes or stays |
| `AtaDisk.RegionIs` | kernel/kernel/mm/page.c:27-50 | what alloc_dma_region hands out is such a window |
| `AtaDisk.SeenExactly` | kernel/drivers/pc/ata.c:301-338 | the drive looks where it should for every sector of a read if and only if every chunk has an address of 48 bits |
| `AtaDisk.WireIsSectors` | kernel/drivers/pc/ata.c:285-382 | under that condition a read delivers the sectors asked for, and fails exactly when one of them cannot be read |
| `AtaDisk.AtaRead` | kernel/drivers/pc/ata.c:285-382 | the buffer receives exactly the sectors the drive sees, and all of them if and only if each can be read |
| `AtaDisk.PartitionRead` | kernel/kernel/fs/partscan.c:35-42 | the same from the partition's start |
| `AtaDisk.DeviceRead` | kernel/kernel/fs/blkdev_ops.c:12-24 | the sectors of a byte range, and how many bytes they are |
| `Ext2.GetBlock` | kernel/kernel/fs/ext2fs.c:158-172 | success exactly when the drive delivers all sectors it sees, and then their bytes |
| `Ext2.GetFileBlock` | kernel/kernel/fs/ext2fs.c:257-276 | the pointer of a direct or singly indirect file block (`IndirectPointers`), all ones when the drive fails to deliver the indirect block |
| `Ext2Files.IndirectPointers` | kernel/kernel/fs/ext2fs.c:266-271 | for every row of 32-bit words that a readable indirect block holds, lowest byte first, the pointer of block 12 + k is word k |
| `Ext2Files.StoredByte` | kernel/kernel/fs/ext2fs.c:158-172 | byte j of a block is the byte of the disk that lies b blocks and j bytes behind the start of the partition |
| `Bytes.WordRoundTrip` | kernel/kernel/fs/ext2fs.c:271 | four bytes are read as the word they were stored as, and as no other |
| `Ext2.Read` | kernel/kernel/fs/ext2fs.c:278-327 | for an offset within the file the buffer receives the bytes of the blocks the code finds, cut at the end of the file, or -EIO is returned exactly when one of them does not come |
| `Ext2Files.ReadExactly` | kernel/kernel/fs/ext2fs.c:278-327 | that is what the file holds, holes read as zeros, if and only if both fail or every byte wanted is fine: no hole whose stand-in is missing or not zero there, no lost block in whose place another comes |
| `Ext2Files.ProperBlock` | kernel/kernel/fs/ext2fs.c:257-308 | a block that is no hole and not lost comes as it is stored |
| `Ext2Files.SparseExactly` | kernel/kernel/fs/ext2fs.c:263-271 | a byte of a hole that has a pointer is right if and only if block 0 can be read and holds a zero there |
| `Ext2Files.SparseByte` | kernel/kernel/fs/ext2fs.c:263-264 | on every disk that does not start with a zero, a file that is one hole reads wrong |
| `Ext2Files.LostIndirectExactly` | kernel/kernel/fs/ext2fs.c:266-308 | an indirect block the drive does not deliver surfaces as a failure if and only if the drive does not deliver the sectors at the all-ones address either, which are those right before the partition when a block of them fits there |
| `Ext2Files.ForeignByte` | kernel/kernel/fs/ext2fs.c:266-308 | a concrete disk with a partition at sector 2048: the byte is lost and the read succeeds |
| `Ext2.TruncatedExactly` | kernel/kernel/fs/ext2fs.c:285-287 | the length is cut to what the file has if and only if the offset lies within it |
| `FileContent.OutcomeExactly` | kernel/kernel/fs/ext2fs.c:278-327 | two reads come to the same if and only if both fail or every byte is the same |
| `FileContent.CopyBlock` | kernel/kernel/fs/ext2fs.c:310-320 | one turn appends the wanted part of one block and stops at a block boundary or at the end |
| `FileContent.ContentAt` | kernel/kernel/fs/ext2fs.c:278-327 | the reference content of a file, byte by byte |
| `Loaders.Loader.LoadHeapBrk` | kernel/kernel/sched/loader.c:152-175 | the loop computes the minimal break in 64-bit words, all ones when it is zero |
| `Segments.MinBreakIs` | kernel/kernel/sched/loader.c:152-165 | the minimal break is page-aligned and, unless zero, the first page boundary after the end of a LOAD segment |
| `Segments.BreakExactly` | kernel/kernel/sched/loader.c:152-165 | no LOAD segment ends above the break if and only if all end before the last page of the address space, or the break is that page and none ends above it |
| `Segments.NoPageServedTwice` | kernel/kernel/sched/loader.c:236-255 | then no page is served by both heap_load and loader_load |
| `Segments.ServedPages` | kernel/kernel/sched/loader.c:236-255 | for page-aligned, page-disjoint segments the loader serves exactly the pages that hold a byte of one |
| `Segments.ServedTwice` | kernel/kernel/sched/loader.c:162-164 | two headers whose rounding wraps: the break is 0x2000 and page 0x400 is served by both |
| `Loaders.Loader.LoaderLoad` | kernel/kernel/sched/loader.c:222-260 | the first segment that covers the page serves it, when its blocks come from the disk; an absent page then shows the file's bytes with the segment's permissions, a mapped one stays; an unserved page or a failed read changes no translation |
| `Loaders.Loader.ReadPage` | kernel/kernel/sched/loader.c:104-126 | down to the sectors: when the blocks come the page holds the bytes the file has for it and zeros behind |
| `Segments.LoadedByte` | kernel/kernel/sched/loader.c:104-126 | each byte of that page |
| `Segments.LoadedExactly` | kernel/kernel/sched/loader.c:104-126 | a page is loaded as its program header describes it if and only if the bytes read where it is to be zero, past the segment's bytes in the file or after an offset that wraps, are zero |
| `Segments.LoadedIsProgram` | kernel/kernel/sched/loader.c:93-136 | for page-aligned, page-disjoint segments with equal file and memory size, the page loaded is that page of the program image |
| `Loaders.ServedNext` | kernel/kernel/sched/loader.c:93-136 | serving one more page leaves the bytes and permissions of all pages served before |
| `Loaders.LazyIsEager` | kernel/kernel/sched/loader.c:222-260 | whatever the order of the faults, every touched page whose bytes are fine shows the program image taken from what the file holds, holes as zeros, with its segment's permissions |
| `Loaders.FineByte` | kernel/kernel/fs/ext2fs.c:278-327 | a fine byte comes as the file holds it |
| `UserMemory.Memory.PageFault` | kernel/kernel/mm/pagefault.c:12-37 | at any address, page mapped or not: served if and only if the address lies in a stack in use, in the heap, or in a segment whose blocks come; an absent page appears with its region's permissions and nothing else changes; the regions stay in order if and only if no mapped stack page is counted again and no page of a slot is mapped for heap or program |
| `UserMemory.Memory.Sbrk` | kernel/kernel/mm/sbrk.c:10-50 | the break goes anywhere, over stacks and program too; the regions stay in order, going down, if and only if no mapped page of a slot or of the program is unmapped, and otherwise if and only if no heap page is left behind |
| `UserMemory.Memory.StartStack` | kernel/kernel/sched/userstack.c:6-39 | the regions stay in order if and only if a new slot lies over no mapped page |
| `UserMemory.Memory.EndStack` | kernel/kernel/sched/userstack.c:65-95 | the regions stay in order, and exactly the stack's frames are freed |
| `UserMemory.BreakLowered` | kernel/kernel/mm/sbrk.c:36-46 | lowering the break keeps stacks, heap and program in order if and only if no mapped page between the two breaks is one of a slot or of the program |
| `UserMemory.BreakMoved` | kernel/kernel/mm/sbrk.c:22-26 | moving the break alone keeps them in order if and only if no page is left that was the heap's only; growing always does |
| `UserMemory.HeapOverStack` | kernel/kernel/mm/sbrk.c:36-46 | a break that had grown over stack 0 and comes down takes its pages and leaves their count wrong, in every state |
| `UserMemory.ApartFault` | kernel/kernel/mm/pagefault.c:23-34 | while program, heap and slots lie one above the other, an address the heap or the loader serves is in the user half and in no slot |
| `UserMemory.ApartUpsets` | kernel/kernel/mm/pagefault.c:23-34 | then a fault upsets nothing but a stack whose mapped page is loaded again |
| `UserMemory.ApartLowers` | kernel/kernel/mm/sbrk.c:36-46 | then lowering the break spares slots and program |
| `UserMemory.ApartSlot` | kernel/kernel/sched/userstack.c:22-35 | then a new slot above the break lies over no mapped page |
| `UserMemory.ExactlyOneRegion` | kernel/kernel/mm/pagefault.c:23-34 | then every mapped user page is exactly one of: a touched program page, a heap page below the break, a page of a stack in use |
| `UserMemory.Isolated` | kernel/arch/x86_64/x86_64/vspace.c:187-252 | whatever another process maps or unmaps, a process' stacks, heap and program pages stay as they are |

## Left out

- VSpaces.VirtualMemory.Map: upper-half pages of a user space, which `loader_load` and `heap_load` can ask for and which end the separation of the spaces (`ServedExactly`, `KernelHeaderBreaks`, `KernelHeapBreaks`), and kernel pages below the heap window, which no caller asks for.
- VSpaces.VirtualMemory.Unmap: mapped upper-half pages of a user space, which the shrink loop of `sys_sbrk` can ask for and which end the separation (`ShrinkExactly`), and mapped kernel pages below the heap window, which no caller asks for.
- Schedulers.Scheduler.SysExit: takes the two writes of `sys_exit` as one step; `SplitExitWrecks` is what the other case comes to.
- Ext2.Read: offsets past the end of the file (their wrapped length is in `TruncatedExactly`), files that need double or triple indirect blocks (a stop in the code) and sums of offset and length beyond 64 bits.
- Ext2.GetBlock: a negative result of the device, which `bd_read` over the disk never returns, would pass the unsigned comparison.
- Loaders.Loader.LoaderLoad: a segment that serves a page in the kernel half (`ServedExactly` is what happens then), a read that starts past the end of the file, and the lazy read of the program header table.
- Loaders.Loader.ReadPage: a read that starts past the end of the file (`TruncatedExactly`).
- Segments.LoadedExactly: headers with p_filesz above p_memsz, which the System V gABI rules out, and the last page of the address space.
- UserHeap.Heap.Sbrk: a shrink that meets a mapped page of the upper half; `ShrinkExactly` says that those are all the calls that break the separation.
- UserMemory.Memory.Sbrk: a shrink from a break above the user half (`ShrinkExactly`).
- UserHeap.Heap.HeapLoad: heap addresses above the user half (`ServedExactly`, `KernelHeapBreaks`).
- UserMemory.Memory.PageFault: heap and program addresses above the user half (`ServedExactly`), bytes that start past the end of the file, and faults without a process.
- UserStacks.StackList.Unwind: counts with which the loop passes page 0.
- IdentityMap.IdMap: machines with more frames in use than have a 32-bit address.
- IdentityMap.PagingInit: the same machines.
- IdentityMap.Boot: machines with more frames in use than have a 32-bit address, where boot code would write to the wrong frame.
- UserStacks.StackList.CreateStack: more slots than fit below the user break.
- KernelHeap.Heap.Kmalloc: sizes whose sum with the header or the break overflows.
- KernelHeap.Heap.Kfree: pointers that are not a live payload, which stop the kernel.
- Wakeups.NoLostWakeup: `irq_wait_until`, `ata_irq` and the wait in `ata_read` are steps of a relation, not methods; an interrupt outside any transfer is excluded when no read has named a task to signal yet, or when the task named by the last one has been freed, in which case the handler would write to freed memory.
- User programs' own stores: program pages are described as loaded.
- Running out of frames (a stop in the code): the methods ask for enough free frames.
- Mutexes and spinlocks: locked regions are atomic steps.
- Processes with several threads in the scheduling machine: one thread each, as `proc_start` creates them; `Processes` covers any number.
- Memory of task, process, stack and space objects on the kernel heap, file descriptors.
- Port I/O, device detection, interrupt and descriptor tables, TLB and cr3.
- `boot32/heap.c` (a near copy of the kernel heap), the memory map of `boot32/mmap.c`, `list_pop_front`, `ffind.c`, `vfs_mknod`, `vfs_mkdir`, `fetch_inode` and directories, formatting, command line, ramdisk and ramfs.
- The two fields a debug build adds to a heap header.
