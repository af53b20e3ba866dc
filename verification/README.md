# Bos: a verified model of the kernel core and the display server

This project models three parts of Bos, an x86-64 hobby kernel with a user-space display server, and
proves what they do over whole runs.

* **Display server** (`Rects`, `Framebuffer`, `Display`, `ZOrder`, `Desk`, `Requests`, `Scene`,
  `Compositor`, `BuriedWindow`, `StaleWindow`). The compositor keeps a scene buffer, a back buffer and a front buffer over arrays and
  repaints only what is damaged. `Desk` and `Scene` say what the screen should show (`Ideal`, `Shown`) from
  the windows alone, and `Requests` what each request means to a user; `Compositor` and `Display` are the
  imperative code, proved against that.
* **Memory manager** (`IntervalMap`, `PhysicalMemory`, `UserVaddr`, `Ownership`, `PageTables`,
  `UserMemory`, `MemoryManager`, `MemoryRuns`, `Teardown`, `ElfImage`, `ElfLoader`, `ModuleLoader`, `BootTask`,
  `Boot`). Interval maps are modelled as lists of intervals and refined to maps from bytes to values.
  `Ownership.Owned` is the accounting of all user frames: every frame has the type its holder needs, private
  frames have one holder, shared frames are backed by a live buffer and none is lost. Every system call keeps
  it, starting from the state in which the boot module has been turned into the first task.
* **Scheduler, context switch and channels** (`Scheduler`, `Affinity`, `TaskFlow`, `ContextSwitch`, `Ipc`,
  `IpcClients`). The run queue and the interrupt and system-call paths are classes; the system of all CPUs and the
  channels are transition systems whose steps are single critical sections or atomic accesses, in any interleaving.
  `IpcClients` says what clients can rely on from the arguments and answers of their calls alone.

`dafny verify dfyconfig.toml` checks everything.

## Results that differ from what one might expect

* A region repaint draws every overlapping window whole. Outside the damage it can paint a window over one
  that lies above it, and the next pointer movement shows the mistake (`BuriedWindowShowsThrough`). The exact
  condition for a right pixel is in `RegionPixelIsRight`, for a right flush in `FlushShows` and for a run in
  which every flush is right in `EveryFlushShows`.
* An update whose rectangle does not fit its window is dropped, but the pixels are in the shared buffer already
  and nothing makes them due, so the screen goes on showing the old ones (`StaleWindowStays`). A request leaves
  every changed pixel due if and only if it fits or changes only pixels that were due (`StepDamageSound`).
* Raising or lowering an identifier that is not a live window breaks the z-order, except when the table is
  full (`StepKeepsStack`).
* The frame allocator compares an exclusive end with an inclusive one, so a usable run that ends with a frame
  never gives that frame up (`Drain`).
* Checking a user pointer whose range ends at the very end of user space panics, because the end is not an
  address the address type can hold (`ValidationIsExact`, `LastPagePanics`).
* A zero-only segment that does not start on a page boundary loses its last page (`CoverageIsExact`,
  `TailIsMissing`).
* A receiver can be told that its peer has closed while a message is still going to be accepted
  (`MessageAfterPeerClosed`); `PeerClosedIsFinal` gives the exact condition.
* The keyboard and a task's exit have room for one waiter: a second one makes the first be forgotten
  (`SlotKeepsLast`). Channels wake their waiters in order and lose none (`WaitersInOrder`).
* Destroying a shared buffer that is still mapped leaves pages on usable frames, and so does destroying one
  between the two critical sections of a map call, when no page maps it (`Free`, `MapRacesDestroy`).
* A system call that returns directly leaves the argument registers shifted by one and one of rbx and r12 to
  r15 holding the stack pointer, while one that was preempted restores them all (`DirectReturn`,
  `DirectReturnKeepsOnlyIf`, `PreemptedCallerResumes`).
* The loader of the boot module takes frames beyond the module if a segment's offset and address are not
  congruent (`FramesSuitSegment`, `StrayFrame`).
* The first task runs in the module's own frames. If two of its segments have a frame in common, that private
  frame has two holders from the start, so freeing one page frees memory the other still maps; otherwise the
  accounting holds (`BootOwned`, `BootManager`). Clearing the page behind a segment's file bytes takes bytes of
  a segment that shares the page (`SharedPageLosesAByte`); without common frames nothing is lost
  (`ImageIsRightExactly`, `NoTailInFile`).
* A new task's stack is not cleared: it reads what its frames held while they were usable (`LoadStack`, `Spawn`).
* A segment with zeros whose file bytes reach into the last page of user space makes both loaders panic, although
  it fits, because the address of the page behind it is computed (`LeavesHalfExactly`).

## Modelling decisions

* Integers are unbounded, page and frame numbers stand for addresses, and pixel addresses are built up row by
  row. Sizes and positions are assumed not to overflow their machine type.
* The page-table library is modelled as a leaf map plus a map of table frames; installing a page can fail for
  want of a frame at each of three levels. An already parsed list of program headers stands for an ELF file.
* Task states are changed by arbitrary events; waiting, waking and spawning interleave freely.
* Between clearing the in-system-call flag and `sysretq` no tick is taken; the two are one step here.
* A client's pixel writes come with its update request, whether or not the request is honoured. Writes that no
  request announces are the same as an update whose rectangle does not fit.
* Each memory call is one step per critical section. Mapping a buffer is two, because the registry lock is
  dropped before the task's and the frame lock are taken, and destroying one is two; the others hold their
  locks throughout. Bytes of data frames are kept apart from page tables.
* Choosing the CPU of a new task reads one readiness flag per step, so flags may change during the scan.
* The boot loader hands over a page-aligned module whose bytes are not in the memory map as usable, as the boot
  protocol has it (kernel/core/src/memory/physical_memory.rs:46-62 enters usable and reclaimable memory only).

## Model

| member | source | states |
|---|---|---|
| `Scene.EveryFlushShows` | userspace/display_server/src/compositor.rs:510-564 | in every run whose updates announce what they change, the front buffer shows the cursor over the ideal scene at every pixel after each of the first n flushes if and only if none of them copied a scene that was wrong under the pointer |
| `Scene.FlushShows` | userspace/display_server/src/compositor.rs:255-298 | a flush that recomposes makes every pixel right; a pointer-only flush does so if and only if the scene was right at the damaged pixels the cursor leaves visible |
| `Scene.UnburiedRunShows` | userspace/display_server/src/compositor.rs:197-298 | over any such run in which no region repaint buries a window, both the scene buffer and the screen stay right after every flush |
| `Scene.FlushKeepsScene` | userspace/display_server/src/compositor.rs:197-228 | a region repaint that buries nothing leaves the whole scene buffer right |
| `Scene.RegionRefinesFull` | userspace/display_server/src/compositor.rs:197-251 | inside the damage a region repaint equals full recomposition; outside, a right pixel stays right unless a window is buried there |
| `Scene.RegionPixelIsRight` | userspace/display_server/src/compositor.rs:197-228 | exactly when a region repaint leaves a pixel right: at a buried pixel if the two windows have the same colour there, elsewhere if it was right, is damaged or is repainted |
| `Scene.OverlapsIsExact` | userspace/display_server/src/compositor.rs:214-227 | a region repaint draws a window if and only if the window has a pixel in the damage |
| `Scene.TouchesIsExact` | userspace/display_server/src/compositor.rs:255-280 | a flush draws the cursor again if and only if its visible box has a pixel in the damage |
| `Scene.FlushPixel` | userspace/display_server/src/compositor.rs:255-298 | what one flush puts at one pixel, for covered and uncovered pixels |
| `Scene.ReceiveKeepsFresh` | userspace/display_server/src/compositor.rs:520-557 | any batch of announced requests and pointer movement keeps both buffers right wherever no refresh is pending |
| `Scene.RunExists` | userspace/display_server/src/compositor.rs:510-564 | every sequence of inputs has a run, so the theorems about runs are about something |
| `BuriedWindow.BuriedWindowShowsThrough` | userspace/display_server/src/compositor.rs:197-228 | a run from the empty screen: three windows opened, one updated, the pointer moved; the first two flushes are right, the third shows a window that lies under another |
| `StaleWindow.StaleWindowStays` | userspace/display_server/src/compositor.rs:349-369 | a run from the empty screen: a window opened, then drawn into and updated with a rectangle one pixel too wide; the first flush is right, the second leaves the old colour on the screen |
| `Desk.BatchDamageSound` | userspace/display_server/src/compositor.rs:132-164 | over any batch, damage stays on screen and a scene update is never pending with nothing to flush; if each request is announced when its turn comes, every pixel whose ideal or shown value changed is covered by pending damage or a full redraw |
| `Desk.StepDamageSound` | userspace/display_server/src/compositor.rs:302-421 | one request of any kind leaves every changed pixel due if and only if it is no update, its rectangle fits the window, or it recolours only pixels that are due anyway |
| `Desk.UpdatedPixel` | userspace/display_server/src/compositor.rs:349-369 | an update changes a pixel of the ideal scene if and only if it stores another colour where its window is topmost, whether or not its rectangle fits |
| `Desk.PointerDamageSound` | userspace/display_server/src/compositor.rs:538-557 | the same for one pointer movement |
| `Desk.StepKeepsDesk` | userspace/display_server/src/compositor.rs:302-421 | every request keeps the window table, identifiers, cursor and damage well formed |
| `Desk.StepKeepsStack` | userspace/display_server/src/compositor.rs:98-128 | after a request the z-order is a permutation of the live windows if and only if a raise or lower named a live window or the table is full |
| `Desk.BatchKeepsStack` | userspace/display_server/src/compositor.rs:434-508 | over any batch that names live windows the z-order stays a duplicate-free permutation of the live windows |
| `Desk.NewWindowIsStacked` | userspace/display_server/src/compositor.rs:302-347 | a new window is always pushed on top; the push is never dropped |
| `Desk.CloseKeepsStack` | userspace/display_server/src/compositor.rs:371-386 | after a close the stack lists exactly the windows still open, each once |
| `Requests.ClosedWindow` | userspace/display_server/src/compositor.rs:371-386 | a closed window is gone from the table and the stack; every other is found as before and keeps its place among the others; closing an unknown window changes no window |
| `Requests.ClosedWindowUncovers` | userspace/display_server/src/compositor.rs:371-386 | after a close every pixel shows the topmost of the other windows |
| `Requests.MovedWindow` | userspace/display_server/src/compositor.rs:388-411 | a moved window is found at the place asked for, otherwise as it was; no other window, no identifier and no stacking changes |
| `Requests.UpdatedWindow` | userspace/display_server/src/compositor.rs:349-369 | an update changes exactly the stored pixels of its window and no other window |
| `Requests.RaisedWindow` | userspace/display_server/src/compositor.rs:413-416 | a raised window is topmost at every pixel it covers; elsewhere the topmost is as before |
| `Requests.LoweredWindow` | userspace/display_server/src/compositor.rs:418-421 | a lowered window is topmost only where no other stacked window covers the pixel; where it was not topmost nothing changes |
| `Requests.CreationIsGranted` | userspace/display_server/src/compositor.rs:302-347 | a window is opened if and only if its sides are from 1 to 4096, fewer than 32 windows are open and a buffer can be had; a missing buffer still uses up the identifier |
| `Requests.CreatedWindow` | userspace/display_server/src/compositor.rs:302-347 | an opened window has a new identifier and the place and size asked for, is blank and topmost wherever it lies; other windows are found as before |
| `Requests.RequestMarks` | userspace/display_server/src/compositor.rs:132-164 | opening, closing and restacking redraw everything; moving marks the least rectangle around old damage, old box and new box, updating that around old damage and the box of a window whose rectangle fits |
| `Requests.WindowHasItsFate` | userspace/display_server/src/compositor.rs:434-508 | over any batch, whether a window is open and its place, size and contents depend only on the requests that name it, in their order |
| `Requests.PointerMoves` | userspace/display_server/src/compositor.rs:538-557 | the pointer goes where it is pushed, as far as the edges of the screen; it marks the least rectangle around old damage and both cursor boxes and moves no window |
| `Desk.TopIsTopmost` | userspace/display_server/src/compositor.rs:214-227 | the window found by drawing bottom to top is the highest visible one covering the pixel |
| `ZOrder.RestackKeepsOthers` | userspace/display_server/src/compositor.rs:98-128 | push, remove, raise and lower keep the relative order of all other windows |
| `ZOrder.RestackArranges` | userspace/display_server/src/compositor.rs:114-128 | raising or lowering a live window permutes the stack and puts it at the end asked for |
| `ZOrder.RestackOfDeadId` | userspace/display_server/src/compositor.rs:114-128 | raising or lowering a dead identifier breaks the stack unless the table is full |
| `Rects.Expand` | shared/kernel_api_types/src/window.rs:12-21 | the grown rectangle is the hull of both |
| `Rects.HullIsLeast` | shared/kernel_api_types/src/window.rs:12-21 | the hull covers both rectangles and is contained in every rectangle that does |
| `Rects.ScreenRectIsExact` | userspace/display_server/src/compositor.rs:132-142 | the clipped rectangle contains exactly the on-screen pixels of the request |
| `Framebuffer.BlitClipped` | userspace/display_server/src/compositor.rs:169-194 | a clipped blit writes exactly the visible part of the source and nothing else |
| `Framebuffer.CopyIntoRow` | userspace/ulib/src/display.rs:56-68 | copying a run into one row changes exactly that run |
| `Display.Display.Present` | userspace/ulib/src/display.rs:50-71 | the front buffer takes the back buffer inside the dirty rectangle, which is then empty |
| `Display.Display.BlitRaw` | userspace/ulib/src/display.rs:75-108 | a clipped blit into the back buffer; exactly its visible part becomes dirty |
| `Display.Display.BlitCursor` | userspace/ulib/src/display.rs:117-160 | every pixel becomes the sprite over what was there; the visible bounding box becomes dirty |
| `Display.TopBitIsColumnZero` | userspace/ulib/src/display.rs:145-155 | the top bit of a sprite row is its leftmost column and no other |
| `Display.ShiftMovesColumns` | userspace/ulib/src/display.rs:145-155 | shifting a row left moves its columns one to the left |
| `Display.Display.ExpandDirty` | userspace/ulib/src/display.rs:162-170 | the dirty rectangle becomes the hull |
| `Compositor.Compositor.PushZ` | userspace/display_server/src/compositor.rs:98-103 | the table and its count hold the pushed stack |
| `Compositor.Compositor.RemoveZ` | userspace/display_server/src/compositor.rs:105-112 | the first occurrence is removed and the rest moved down in place |
| `Compositor.Compositor.RaiseZ` | userspace/display_server/src/compositor.rs:114-117 | remove then push |
| `Compositor.Compositor.LowerZ` | userspace/display_server/src/compositor.rs:119-128 | remove, shift up and put first |
| `Compositor.Compositor.ExpandDamage` | userspace/display_server/src/compositor.rs:148-153 | pending damage becomes the hull |
| `Compositor.Compositor.FullRedraw` | userspace/display_server/src/compositor.rs:155-159 | a full redraw replaces pending damage |
| `Compositor.Compositor.AddDamage` | userspace/display_server/src/compositor.rs:161-164 | damage plus a scene update |
| `Compositor.Compositor.UpdateSceneRegion` | userspace/display_server/src/compositor.rs:197-228 | the scene buffer becomes the region repaint at every pixel |
| `Compositor.Compositor.UpdateSceneFull` | userspace/display_server/src/compositor.rs:230-251 | the scene buffer becomes the ideal scene at every pixel |
| `Compositor.Compositor.PresentRegion` | userspace/display_server/src/compositor.rs:255-280 | the screen takes the region with the cursor on top, and back and front agree everywhere |
| `Compositor.Compositor.Flush` | userspace/display_server/src/compositor.rs:282-298 | the buffers after a flush are those of the pixel-by-pixel specification |
| `Compositor.Compositor.HandleCreate` | userspace/display_server/src/compositor.rs:302-347 | reply, identifier and desk after a create request, including bad dimensions, no slot and no buffer |
| `Compositor.Compositor.HandleUpdate` | userspace/display_server/src/compositor.rs:349-369 | the desk after an update request: the stored pixels are in the buffer, unknown windows are ignored, and only a rectangle inside the window becomes damage |
| `Compositor.Compositor.HandleClose` | userspace/display_server/src/compositor.rs:371-386 | the desk after a close request, as `Requests.ClosedWindow` describes it; unknown windows are ignored |
| `Compositor.Compositor.HandleMove` | userspace/display_server/src/compositor.rs:388-411 | the desk after a move request, as `Requests.MovedWindow` and `Requests.RequestMarks` describe it; unknown windows are ignored |
| `Compositor.Compositor.ProcessMessage` | userspace/display_server/src/compositor.rs:434-508 | one decoded request takes the desk to its successor, whose windows, stack and damage the lemmas of `Requests` describe, and keeps the compositor valid |
| `Compositor.Compositor.MoveCursor` | userspace/display_server/src/compositor.rs:538-557 | the desk after an accumulated pointer movement, clamped to the screen |
| `Compositor.Compositor.Turn` | userspace/display_server/src/compositor.rs:520-564 | one turn of the event loop is one frame of a run |
| `Compositor.Compositor.Serve` | userspace/display_server/src/compositor.rs:510-564 | the event loop over any inputs leaves in its buffers exactly the states of a run |
| `Compositor.RunCompositor` | userspace/display_server/src/compositor.rs:38-96 | a new compositor driven by any announced inputs shows the right screen after every flush if and only if no pointer flush copies a wrong scene, and always if no repaint buries a window |
| `IntervalMap.CutRefines` | kernel/core/src/memory/physical_memory.rs:123-158 | cutting removes exactly the addresses and keeps intervals sorted, disjoint and maximal |
| `IntervalMap.InsertRefines` | kernel/core/src/user_task_from_elf.rs:213-227 | merging insertion succeeds exactly on vacant addresses, sets them and changes nothing else |
| `IntervalMap.AssignRefines` | kernel/core/src/memory/physical_memory.rs:93-121 | cut then insert never fails and assigns exactly the addresses |
| `IntervalMap.CanonicalIsUnique` | kernel/core/src/memory/physical_memory.rs:93-158 | two canonical maps with the same bytes are the same list of intervals |
| `IntervalMap.GapsAreVacant` | kernel/core/src/memory/vaddr_allocator.rs:20-45 | gaps are in range, vacant and ascending |
| `IntervalMap.VacantRunInGap` | kernel/core/src/memory/vaddr_allocator.rs:20-45 | a vacant run lies inside one gap |
| `PhysicalMemory.PhysicalMemory.AllocateFrame` | kernel/core/src/memory/physical_memory.rs:93-121 | retypes the lowest frame that passes the inclusive-end test, not a byte else; fails exactly when none passes |
| `PhysicalMemory.PhysicalMemory.FreeFrame` | kernel/core/src/memory/physical_memory.rs:123-158 | frees exactly a frame of the expected type; wrong type and double free report the reason and change nothing |
| `PhysicalMemory.AllocateThenFree` | kernel/core/src/memory/physical_memory.rs:93-158 | allocate then free restores the interval list exactly |
| `PhysicalMemory.Drain` | kernel/core/src/memory/physical_memory.rs:93-121 | asking for frames until there is none hands out a frame if and only if it is wholly usable and the byte after it is usable |
| `PhysicalMemory.LoneFrameIsUnreachable` | kernel/core/src/memory/physical_memory.rs:93-121 | concrete map: one usable frame that is never handed out |
| `UserVaddr.AllocateInRange` | kernel/core/src/memory/vaddr_allocator.rs:20-45 | the least page-aligned start of n free pages in the range; fails only if none exists |
| `UserVaddr.AllocateUserPages` | kernel/core/src/memory/user_vaddr.rs:9-30 | the same in the user range |
| `UserVaddr.FreeUserPages` | kernel/core/src/memory/user_vaddr.rs:32-51 | releases exactly the range if all of it is allocated, otherwise changes nothing |
| `UserVaddr.RangeTestIsExact` | kernel/core/src/memory/user_vaddr.rs:53-60 | the single-interval test holds if and only if every address of the range is allocated |
| `UserVaddr.ValidationIsExact` | kernel/core/src/syscall_handlers/mod.rs:23-47 | for a user task the check panics if and only if a range in user space reaches its very end; any other range is accepted if and only if it is non-empty, in user space and wholly allocated |
| `UserVaddr.LastPagePanics` | kernel/core/src/syscall_handlers/mod.rs:41-46 | the last page of user space, allocated, makes the check panic |
| `UserVaddr.VirtualMemoryAllocator.AllocateContiguousPages` | kernel/core/src/memory/vaddr_allocator.rs:20-45 | least fit, and the new block is disjoint from every live block |
| `UserVaddr.VirtualMemoryAllocator.AllocateKernelPages` | kernel/core/src/memory/vaddr_allocator.rs:47-49 | least fit in the higher half; fails only if none exists |
| `UserVaddr.VirtualMemoryAllocator.FreeKernelPages` | kernel/core/src/memory/vaddr_allocator.rs:56-61 | exactly the pages are released; the blocks they touch are no longer live and all others stay allocated |
| `PageTables.MapTo` | kernel/core/src/syscall_handlers/memory.rs:57-86 | installing a page adds exactly it, taking only usable frames for tables; fails only on a mapped page or when no frame is left, leaving the leaf mappings |
| `PageTables.MapFreshPages` | kernel/core/src/syscall_handlers/memory.rs:57-86 | n fresh private pages, all zero, or the first k with the reason for stopping; only usable frames are written |
| `PageTables.UnmapPrivate` | kernel/core/src/syscall_handlers/memory.rs:199-213 | unmaps exactly the range; private frames become usable, shared ones keep their type |
| `PageTables.MapSharedFrames` | kernel/core/src/shared_buf.rs:139-157 | maps given frames in order, whatever they are, keeping the books for everything else |
| `PageTables.SharedPagesOwned` | kernel/core/src/shared_buf.rs:139-157 | the new pages fit the accounting if and only if every frame is a shared one |
| `PageTables.MapNewShared` | kernel/core/src/shared_buf.rs:52-97 | allocates, zeroes and maps new shared frames, each at its page and nowhere else |
| `PageTables.RollbackCreate` | kernel/core/src/shared_buf.rs:180-197 | undoing a creation unmaps exactly its pages and frees exactly its frames |
| `PageTables.RollbackMap` | kernel/core/src/shared_buf.rs:180-197 | undoing a mapping removes exactly its pages and touches no frame |
| `MemoryManager.MemoryManager.Mmap` | kernel/core/src/syscall_handlers/memory.rs:17-89 | the least fitting pages, backed by usable frames and reading zero, or everything but page tables exactly as before and a reason; nobody else's bytes change and the invariant is kept |
| `MemoryManager.RollbackIsExact` | kernel/core/src/syscall_handlers/memory.rs:199-213 | after the rollback of a failed mmap only page tables are new |
| `MemoryManager.MemoryManager.Munmap` | kernel/core/src/syscall_handlers/memory.rs:95-138 | succeeds if and only if the range is aligned, non-empty and wholly allocated; unmaps exactly it |
| `MemoryManager.MemoryManager.CreateSharedBuf` | kernel/core/src/syscall_handlers/memory.rs:140-170 | it panics exactly if the check of the result pointer does; otherwise a new buffer that reads zero, whose address is the word at the result pointer, or everything but page tables as before and a reason; nobody sees a byte change except the eight of the word, and whoever maps their place sees those |
| `MemoryManager.BufferStaysZero` | kernel/core/src/syscall_handlers/memory.rs:161-166 | the word is not in the new buffer, whose frames were usable |
| `UserMemory.StoreSeen` | kernel/core/src/syscall_handlers/memory.rs:163 | after a store of at most a page, every task reads a stored byte where its address leads to the same place and what it read before anywhere else |
| `UserMemory.StoreThenRead` | kernel/core/src/syscall_handlers/memory.rs:163 | a word stored in little-endian order reads back |
| `MemoryManager.MemoryManager.BuildSharedBuf` | kernel/core/src/shared_buf.rs:31-103 | a fresh identifier whose registered frames are those mapped, in order and reading zero, or everything but page tables as before and a reason |
| `MemoryManager.SharedRollbackIsExact` | kernel/core/src/shared_buf.rs:180-197 | after the rollback of a failed creation only page tables are new |
| `MemoryManager.MemoryManager.LookUp` | kernel/core/src/shared_buf.rs:109-115 | copying the frame list under the registry lock |
| `MemoryManager.MemoryManager.Install` | kernel/core/src/shared_buf.rs:117-160 | mapping the copied frames later: pages, frames and buffers agree afterwards if and only if the frames are shared ones at that time; a failure undoes everything but page tables and frees no frame |
| `MemoryManager.MemoryManager.Remove` | kernel/core/src/shared_buf.rs:167-168 | taking a buffer out of the registry keeps the invariant |
| `MemoryManager.MemoryManager.Free` | kernel/core/src/shared_buf.rs:169-176 | frees exactly the buffer's frames; the invariant survives if and only if no page maps one and no map call has the buffer in flight |
| `MemoryManager.MapRacesDestroy` | kernel/core/src/shared_buf.rs:109-176 | a map call and a destroy call that cross, with no page mapped at the time of the free, leave pages on frames that are not shared |
| `MemoryManager.MappedBufferDangles` | kernel/core/src/shared_buf.rs:162-176 | destroying a buffer that is still mapped always breaks the invariant |
| `MemoryManager.MemoryManager.Exit` | kernel/core/src/task/task.rs:195-204 | a dead task's private frames become usable and the memory invariant survives without it |
| `MemoryManager.MemoryManager.Spawn` | kernel/core/src/user_task_from_elf.rs:301-445 | on success the new task holds its program, its stack reads what the frames held before, all other tasks read the same bytes and pages, frames and buffers agree; failure has a reason |
| `MemoryRuns.Serve` | kernel/core/src/syscall_handlers/memory.rs:17-138 | from any state in which the invariant holds, any interleaving of the critical sections of spawn, exit and memory calls keeps it, up to a failed load or a free of a buffer still mapped or in flight |
| `Boot.BootAndServe` | kernel/core/src/main.rs:89-92 | the same from the real first state, the boot module loaded as the first task, for segments inside the module without a common frame |
| `Boot.BootManager` | kernel/core/src/main.rs:89-92 | the invariant holds in the first state if and only if no two segments have a frame in common, for segments inside the module; with congruent segments every one then reads right |
| `MemoryRuns.PrivateFramesAreMappedOnce` | kernel/core/src/syscall_handlers/memory.rs:57-86 | a private data frame is mapped at most once system-wide and is no page table |
| `MemoryRuns.BuffersAreDisjoint` | kernel/core/src/shared_buf.rs:18-25 | registry frames are pairwise distinct and typed shared, and every mapped shared frame is in the registry |
| `MemoryRuns.NoFrameIsLost` | kernel/core/src/syscall_handlers/memory.rs:17-138 | every user-typed frame is mapped, a table or root, or in a buffer |
| `Teardown.FreeUserAddressSpace` | kernel/core/src/task/task.rs:138-193 | exactly the private frames reachable from root entries 0..256 and the root become usable; all others, shared ones included, keep their type |
| `Teardown.RootCoversAll` | kernel/core/src/task/task.rs:144-186 | on well-formed tables the walk reaches exactly the frames the task holds |
| `Teardown.FreeTable` | kernel/core/src/task/task.rs:150-185 | one table: exactly the private frames at or below it |
| `ElfLoader.LoadElf` | kernel/core/src/user_task_from_elf.rs:301-452 | success means every PT_LOAD segment and the stack on pages of their own in the user half; each failure and panic has its reason; only usable memory is touched |
| `ElfLoader.ImageIsRight` | kernel/core/src/user_task_from_elf.rs:317-412 | byte p_vaddr+k is file byte p_offset+k below p_filesz and 0 up to p_memsz, if the segment has file bytes, is empty or starts on a page boundary |
| `ElfLoader.TailIsMissing` | kernel/core/src/user_task_from_elf.rs:384-402 | otherwise the last byte is not mapped, unless another segment or the stack lies there |
| `ElfImage.CoverageIsExact` | kernel/core/src/user_task_from_elf.rs:327-402 | a segment's pages cover it if and only if it has file bytes, is empty or starts on a page boundary |
| `ElfImage.FilePageIsRight` | kernel/core/src/user_task_from_elf.rs:344-374 | the page that is zeroed and copied into holds exactly the segment's bytes |
| `ElfLoader.LoadSegment` | kernel/core/src/user_task_from_elf.rs:317-412 | loads one segment, keeps all earlier pages and bytes, and records its addresses without overlap; panics only if the segment leaves the user half |
| `ElfImage.LeavesHalfExactly` | kernel/core/src/user_task_from_elf.rs:327-390 | loading a segment with file bytes computes an address outside the user half if and only if it ends past it, or has zeros and file bytes in the last page |
| `ElfLoader.InstallPages` | kernel/core/src/user_task_from_elf.rs:343-402 | n filled pages where none was mapped, others untouched, or a reason; a page past the user half panics |
| `ElfLoader.Track` | kernel/core/src/user_task_from_elf.rs:404-412 | recording freshly mapped pages never overlaps what is recorded |
| `ElfLoader.LoadStack` | kernel/core/src/user_task_from_elf.rs:417-440 | sixteen stack pages that no segment has, on frames that were usable and keep what they held |
| `ElfLoader.StackPlace` | kernel/core/src/user_task_from_elf.rs:418-426 | the stack is the 64 KiB that end one page below the end of the user half |
| `BootTask.LoadModule` | kernel/core/src/user_task_from_elf.rs:76-289 | every byte of the module ends typed: referenced frames user memory, the rest usable or allocated; elsewhere exactly the allocated and referenced frames changed; file pages map the module in place, all else is on frames of the task alone; unless memory runs out, it succeeds if and only if all segments lie in the file and the user half, no page is mapped twice, at most one segment has a zero tail and there is an entry point |
| `BootTask.MapModule` | kernel/core/src/user_task_from_elf.rs:99-211 | the segments, up to reclaiming the module |
| `BootTask.BootOwned` | kernel/core/src/user_task_from_elf.rs:117-211 | the first task fits into the accounting if and only if no two of its segments refer to a common frame |
| `BootTask.BootTypes` | kernel/core/src/user_task_from_elf.rs:105-227 | frame by frame: file frames and allocated frames are user memory and were not, no other frame became or ceased to be user memory |
| `BootTask.BootReads` | kernel/core/src/user_task_from_elf.rs:142-199 | on file pages the task reads what is left of the file at the place the address shows, on zero pages zero |
| `BootTask.WipeIsRight` | kernel/core/src/user_task_from_elf.rs:232-248 | exactly the rest of the page behind the one zero tail and the rest of the last page are cleared |
| `BootTask.ImageIsRightExactly` | kernel/core/src/user_task_from_elf.rs:142-248 | a congruent segment reads its file bytes and then zeros if and only if no cleared tail takes a non-zero byte of it |
| `BootTask.NoTailInFile` | kernel/core/src/user_task_from_elf.rs:173-178 | without common frames no file byte lies behind a tail |
| `BootTask.SharedPageLosesAByte` | kernel/core/src/user_task_from_elf.rs:173-178 | two segments on one page of the file: the first one's zeros take the byte of the second |
| `BootTask.MapSegment` | kernel/core/src/user_task_from_elf.rs:118-211 | one segment, and the reason of each panic |
| `ModuleLoader.AllocationMissesModule` | kernel/core/src/user_task_from_elf.rs:105-115 | an allocated frame is new and was usable, and lies in the module only once the rest of it is usable |
| `ModuleLoader.FillGaps` | kernel/core/src/user_task_from_elf.rs:213-227 | the gap-filling loop ends with no hole and changes nothing that was typed |
| `ModuleLoader.FramesSuitSegment` | kernel/core/src/user_task_from_elf.rs:126-149 | the frames hold the file bytes, and stay inside the module, if and only if the page counts by address and by offset suit each other |
| `ModuleLoader.CongruentSegmentSuits` | kernel/core/src/user_task_from_elf.rs:126-149 | congruent offset and address are enough for both |
| `ModuleLoader.StrayFrame` | kernel/core/src/user_task_from_elf.rs:126-160 | without congruence the loader takes a frame beyond the module |
| `ModuleLoader.ClaimFrames` | kernel/core/src/user_task_from_elf.rs:151-162 | exactly the segment's frames become user memory |
| `Scheduler.RunQueue.Add` | kernel/core/src/task/local_scheduler.rs:30-36 | push back; the count equals the queue length |
| `Scheduler.RunQueue.Mark` | kernel/core/src/syscall_handlers/mod.rs:57-59 | storing a task's state changes nothing else |
| `Scheduler.RunQueue.ScheduleFromInterrupt` | kernel/core/src/task/local_scheduler.rs:49-134 | one tick takes the queue to its successor, as `Scheduler.NextRuns` and `Scheduler.OutgoingTask` describe it, and returns the context of the current task |
| `Scheduler.NextRuns` | kernel/core/src/task/local_scheduler.rs:49-89 | with nothing queued a tick changes nothing; otherwise the first of the queue becomes current and running, and no state but its own and the outgoing task's changes |
| `Scheduler.OutgoingTask` | kernel/core/src/task/local_scheduler.rs:61-89 | an outgoing task that sleeps or is dead leaves the queue and keeps its state; an initializing, running or ready one goes to the back of the queue as ready |
| `Scheduler.BlockedTaskLeaves` | kernel/core/src/task/local_scheduler.rs:61-89 | a current task marked sleeping or dead while another can run is off the CPU and out of its queue from the next tick until it is added again, whatever else is queued, marked or run |
| `Scheduler.RoundRobin` | kernel/core/src/task/local_scheduler.rs:49-89 | the task at position k is current after exactly k+1 ticks, whatever is added or marked meanwhile |
| `Scheduler.NotEarlier` | kernel/core/src/task/local_scheduler.rs:49-89 | and not before |
| `Scheduler.RunConserves` | kernel/core/src/task/local_scheduler.rs:61-89 | over any run, queued plus current plus dropped tasks equal the initial plus the added ones |
| `Scheduler.TickConserves` | kernel/core/src/task/local_scheduler.rs:61-89 | a tick drops exactly a sleeping or dead outgoing task and only when another can run |
| `Scheduler.RunKeepsValid` | kernel/core/src/task/local_scheduler.rs:30-89 | the count equals the queue length and the context pointer names the current task at every lock release |
| `Scheduler.StoppedIsNotResumed` | kernel/core/src/task/local_scheduler.rs:53-91 | with a never-blocking idle task no tick resumes an outgoing task that sleeps or is dead; the empty-queue shortcut is taken only with the idle task current |
| `Affinity.ChooseCpu` | kernel/core/src/task/global_scheduler.rs:26-39 | the first ready CPU in cyclic order, or the caller's own exactly when none is ready |
| `Affinity.NeverStuck` | kernel/core/src/task/global_scheduler.rs:26-40 | whatever is in hand can be acted on: a new task gets its number, its scan goes on, an entry can be registered, a task can be added to the CPU it names |
| `Affinity.ScanAlone` | kernel/core/src/task/global_scheduler.rs:29-39 | a scan that nothing interrupts settles on the CPU that choosing among the flags gives |
| `Affinity.TasksStayHome` | kernel/core/src/task/global_scheduler.rs:14-80 | in every reachable state, however scans and steps interleave, tasks are queued or current only where spawned, waiter entries name that CPU, and no task is current on two CPUs |
| `Affinity.RunKeepsAffinity` | kernel/core/src/syscall_handlers/ipc.rs:80-83 | every run keeps affinity, and a task's CPU never changes |
| `Affinity.QueuesStep` | kernel/core/src/syscall_handlers/mod.rs:50-65 | every step keeps queues at home, including wake-ups across CPUs |
| `Affinity.WaitingStep` | kernel/core/src/ipc/mod.rs:92-102 | every step keeps the waiter lists naming the right CPU |
| `Affinity.PendingStep` | kernel/core/src/syscall_handlers/task.rs:38-44 | entries taken or made outside the locks name the right CPU |
| `TaskFlow.RunConserves` | kernel/core/src/task/global_scheduler.rs:14-80 | over any run of all CPUs, the tasks queued, current or about to be queued, plus the sleeping and dead ones that ticks dropped, are those there before plus the new tasks that were given a CPU and the waiters that were taken, counted with multiplicity |
| `TaskFlow.TaskInHandRuns` | kernel/core/src/task/global_scheduler.rs:40 | a spawned or woken task, once added, is current on its CPU at the tick after as many ticks of that CPU as its queue was long, whatever else happens meanwhile |
| `TaskFlow.SpawnAlone` | kernel/core/src/task/global_scheduler.rs:14-40 | a spawn that nothing interrupts puts the task at the back of the queue of the CPU that choosing gives, and draws one number |
| `TaskFlow.WakeAlone` | kernel/core/src/ipc/mod.rs:92-102 | a wake-up that nothing interrupts moves the first waiter to the back of the queue of the CPU it names |
| `TaskFlow.BlockAlone` | kernel/core/src/syscall_handlers/ipc.rs:79-83 | a blocking task that nothing interrupts registers itself for its own CPU, last in a channel's queue or alone in a slot |
| `TaskFlow.WaitersInOrder` | kernel/core/src/ipc/mod.rs:92-102 | over any run, the waiters of a channel woken so far followed by those still waiting are those that waited at the start followed by those that registered |
| `TaskFlow.SlotKeepsLast` | kernel/core/src/syscall_handlers/task.rs:127-130 | a slot holds the last waiter registered there; an earlier one is forgotten |
| `TaskFlow.ReadyExactly` | kernel/core/src/task/global_scheduler.rs:26-32 | after any run exactly the CPUs that were or became ready are ready, and spawn numbers were given out once each, in turn |
| `ContextSwitch.Cpu.TimerInterrupt` | kernel/core/src/interrupt/handlers.rs:102-244 | a tick changes only who is current: every task's own registers and frame are as before; GS is the kernel's exactly in ring 0 |
| `ContextSwitch.Cpu.Save` | kernel/core/src/interrupt/handlers.rs:128-161 | all fifteen registers and the frame of the interrupted code |
| `ContextSwitch.Cpu.Restore` | kernel/core/src/interrupt/handlers.rs:186-244 | all fifteen registers and the frame of the next task, with the stack selector fixed |
| `ContextSwitch.Cpu.Inner` | kernel/core/src/task/local_scheduler.rs:93-134 | the scheduler's choice, with its address space and kernel stack |
| `ContextSwitch.Cpu.SyscallEntry` | kernel/core/src/raw_syscall_handler.rs:18-93 | the context holds exactly the state the processor left; the kernel stack holds the caller's rdi, rsi, rdx, r10, r8, r9 and rax, each in its place, and its return address, flags and stack pointer |
| `ContextSwitch.Cpu.RunHandling` | kernel/core/src/raw_syscall_handler.rs:18-146 | however long the handler works, the call number is the caller's rdi at entry, the arguments are its rsi, rdx, r10, r8, r9 and rax, and the return address, flags and stack pointer are kept |
| `ContextSwitch.Cpu.SyscallReturn` | kernel/core/src/raw_syscall_handler.rs:123-170 | the registers after a direct return: argument registers shifted, the result in rax, the user's stack pointer in one of rbx and r12 to r15, the others as the handler left them |
| `ContextSwitch.Cpu.SetFallback` | kernel/core/src/syscall_handlers/task.rs:58-67 | only rax of the caller's context changes |
| `ContextSwitch.Cpu.Enqueue` | kernel/core/src/task/local_scheduler.rs:30-36 | adding to the queue changes no task's registers |
| `ContextSwitch.InterruptedTaskResumes` | kernel/core/src/interrupt/handlers.rs:102-244 | over any run, an interrupted task keeps exactly the registers and frame it had |
| `ContextSwitch.PreemptedCallerResumes` | kernel/core/src/interrupt/handlers.rs:124-173 | a task preempted in a system call keeps its entry registers, with rax as the handler set it last |
| `ContextSwitch.RestingTaskIsUntouched` | kernel/core/src/interrupt/handlers.rs:102-244 | no run changes the registers of a task that does not compute |
| `ContextSwitch.Cpu.Play` | kernel/core/src/interrupt/handlers.rs:102-244 | one event of any kind on the CPU is that event for what tasks observe |
| `ContextSwitch.Cpu.Drive` | kernel/core/src/interrupt/handlers.rs:102-244 | any run of the CPU is a run of what tasks observe |
| `ContextSwitch.Cpu.RunInterrupted` | kernel/core/src/interrupt/handlers.rs:102-244 | after interrupting a task and any run in which it rests, the CPU holds exactly its registers and frame when it is current again |
| `ContextSwitch.Cpu.RunPreempted` | kernel/core/src/interrupt/handlers.rs:124-173 | after preempting a task in a system call, the CPU holds its entry registers when it is current again, with rax as the handler set it last |
| `ContextSwitch.Cpu.RunReturning` | kernel/core/src/raw_syscall_handler.rs:123-170 | after a direct return the CPU holds the caller's frame and the result; rbx, rbp and r12 to r15 are back only if one of rbx and r12 to r15 held rsp |
| `ContextSwitch.DirectReturn` | kernel/core/src/raw_syscall_handler.rs:123-170 | a direct return keeps the frame, delivers the result and shifts the argument registers |
| `ContextSwitch.DirectReturnKeepsOnlyIf` | kernel/core/src/raw_syscall_handler.rs:147-167 | a direct return can give back rbx, rbp and r12 to r15 if and only if one of rbx and r12 to r15 held the stack pointer at entry |
| `ContextSwitch.ZeroedCallerLosesARegister` | kernel/core/src/raw_syscall_handler.rs:147-167 | a concrete caller that loses one of these registers to every direct return |
| `Ipc.Capacity` | kernel/core/src/ipc/mod.rs:55-60 | a request for 1 to 256 messages is granted, a larger one gets 256 and zero gets 16 |
| `Ipc.ChannelsAreFifo` | kernel/core/src/ipc/mod.rs:55-171 | in every reachable state of every interleaving, accepted messages are the delivered ones followed by the queue, within capacity |
| `Ipc.HistoryIsAnswers` | kernel/core/src/ipc/mod.rs:104-157 | over any run a channel's histories grow by exactly what receivers were given and what senders were told was sent |
| `Ipc.HeardIsPrefixOfTold` | kernel/core/src/ipc/mod.rs:104-157 | what receivers of a new channel are given is a prefix of what senders were told was sent, behind by at most the capacity |
| `Ipc.PushAnswers` | kernel/core/src/ipc/mod.rs:122-131 | a sender is told ChannelFull, and nothing changes, if and only if as many messages as the channel holds are accepted and not delivered; otherwise it is told the message was sent |
| `Ipc.PopAnswers` | kernel/core/src/ipc/mod.rs:145-157 | a receiver is given the oldest message accepted and not delivered; if there is none it is told PeerClosed if the sending end is closed and WouldBlock if not |
| `IpcClients.SentIsReceived` | kernel/core/src/ipc/mod.rs:55-157 | for every pair of endpoints made in any run, the messages receives on the one end returned are a prefix of those sends on the other reported as sent, behind by at most the capacity granted |
| `IpcClients.RunIsExplained` | kernel/core/src/ipc/mod.rs:55-171 | over any run, from the arguments and answers of the calls alone: the registry holds exactly the endpoints made and not removed, each channel has accepted what its senders and delivered what its receivers were told, its ends are closed exactly if that was confirmed, and a thread is doing what it asked for |
| `IpcClients.LookUpAnswers` | kernel/core/src/ipc/mod.rs:104-116 | a send, receive or close fails at its look-up exactly as its message size and the endpoints made and not removed tell: MessageTooLarge, InvalidEndpoint or WrongDirection, in this order |
| `IpcClients.SendFindsPeer` | kernel/core/src/ipc/mod.rs:118-120 | a send past its look-up is told PeerClosed if and only if closing the other end was confirmed |
| `IpcClients.SendIsAnswered` | kernel/core/src/ipc/mod.rs:122-131 | a send past that is refused if and only if the messages sent and not received fill the capacity granted |
| `IpcClients.ReceiveIsAnswered` | kernel/core/src/ipc/mod.rs:145-157 | a receive past its look-up returns the first message sent and not received; with none left it is told PeerClosed if and only if closing the other end was confirmed |
| `IpcClients.SendAlone` | kernel/core/src/ipc/mod.rs:104-132 | a send that nothing interrupts, through a live endpoint whose other end is open and with room, is reported as sent |
| `IpcClients.ReceiveAlone` | kernel/core/src/ipc/mod.rs:134-150 | a receive that nothing interrupts, of a channel that holds a message, returns the oldest |
| `IpcClients.ChannelMade` | kernel/core/src/ipc/mod.rs:55-90 | creating returns both identifiers, the first for sending and the second for receiving, of one empty channel with the capacity granted |
| `IpcClients.CloseAlone` | kernel/core/src/ipc/mod.rs:159-171 | a close that nothing interrupts removes the identifier and then marks its own end closed |
| `Ipc.RunKeepsInv` | kernel/core/src/ipc/mod.rs:55-171 | registry, operations in progress and channels stay consistent over every run |
| `Ipc.IdsStep` | kernel/core/src/ipc/mod.rs:73-89 | identifiers taken by any number of creators at once are distinct and unused until they are entered |
| `Ipc.HistoryGrows` | kernel/core/src/ipc/mod.rs:104-157 | no accepted or delivered message is ever taken back |
| `Ipc.PeerClosedIsFinal` | kernel/core/src/ipc/mod.rs:134-171 | a receiver told PeerClosed has everything accepted so far; nothing more will be accepted if and only if no send is in flight |
| `Ipc.MessageAfterPeerClosed` | kernel/core/src/ipc/mod.rs:104-171 | a concrete interleaving in which a message is accepted after PeerClosed |

## Left out

- Machine-integer overflow at extreme window positions, buffer sizes or header fields.
- Raw message layout, replies over channels and the cursor bitmap of the display server: decoding and constants.
- Pixel formats, text, gradients and the drawing-library traits of the display library: easy members.
- Null window buffers.
- FPU and SSE state, end-of-interrupt, TLB flushes, stack alignment and the timer path taken before a CPU has its first task.
- CPU tick accounting per task: a counter that nothing depends on.
- Liveness of blocking system calls, `sys_waitpid` results and the keyboard buffer: a preempted blocking call resumes in user mode, so no delivery is promised.
- Sending wake-up interrupts to other CPUs: they only shorten the wait for the next tick.
- `sys_transfer_display` and its failure path.
- The undoing of failed program loads: the source undoes nothing, so nothing is stated about the frames a failed load has taken.
- The mapping flags of pages (writable, executable): constants derived from segment flags; a system call that writes its result to a read-only page of the caller is not described.
- Page faults, drivers, ACPI, APIC and boot: hardware access.
- MemoryManager.MemoryManager.Spawn: a failed load is not required to keep the memory invariant, because the source leaks the frames it had taken; programs with a loadable segment that starts in the kernel half are excluded, because the source maps such a segment into page tables that all tasks share, and those tables are not part of this model.
- ElfLoader.LoadElf: requires no loadable segment to start in the kernel half, as above.
- ElfLoader.LoadSegment: requires the segment not to start in the kernel half, as above.
- MemoryRuns.Serve: stops at a program with a loadable segment that starts in the kernel half, as above.
- BootTask.LoadModule: requires no loadable segment to start in the kernel half, as above.
- BootTask.BootOwned: speaks of segments whose frames lie in the module; one that leaves it takes frames of whoever has them, and the accounting then depends on who that is.
