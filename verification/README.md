# Verified model of the kernel simulator

A Dafny model of the stateful core of the educational kernel simulator in `computekernel_edu/`:
the round-robin scheduler, the module loader, physical and virtual memory, pipes, the VFS over
TmpFS, the process table, and the system calls that tie them together.

## How it is laid out

Every subsystem comes in two layers.

* A **specification**: an immutable state and one function per operation, taking the same branches
  as the code (`SchedulerModel`, `ModuleModel`, `FrameModel`, `MemoryModel`, `PipeModel`,
  `Paths`, `MountModel`, `TmpFsModel`, `VfsModel`, `ProcessModel`, `SyscallModel`). Properties of
  whole runs are proved about this layer, in these modules and in `SchedulerRounds`,
  `SchedulerWaiting`, `ModuleReach`, `ModuleEvents`, `VfsResolve`, `VfsReach`, `VfsRoundTrip`,
  `VfsFiles`, `VfsReads`, `VfsDescriptors` and `ProcessLinks`. What each single call answers, changes
  and leaves alone is stated without reference to how it is computed in `SchedulerSteps`,
  `ModuleSteps`, `MemorySteps`, `VfsSteps`, `ProcessSteps` and `SyscallSteps`.
* **Classes** with the source's fields, updated in place, loops included (`SchedulerClass`,
  `ModuleLoaderClass`, `MemoryClass`, `IpcClass`, `TmpFsClass`, `VfsClass`, `ProcessClass`,
  `SyscallClass`). Each method's postcondition equates the new abstract value, its result and
  everything it leaves alone with the specification function of the old abstract value, so the
  properties of runs carry over to the objects.

The file layer has three levels: strings (`Paths`, `MountModel`, `VfsModel`), component lists
walked in an inode tree (`TmpFsModel`, `VfsResolve`, `VfsReach`, `VfsRoundTrip`), and flat byte files
with cursors (`VfsFiles`, `VfsReads`, `VfsDescriptors`).

Dictionaries keyed by objects' numbers are maps, filesystems are named by number in mounts so
that the specification is a value, and Python integers are unbounded integers. `//` by a positive
constant and slices with negative ends are modelled as Python defines them.

## Preconditions and what they mean

* Threads are told apart by their tids. The scheduler's run properties ask for slices of at least
  one tick and for the callers' discipline that `SchedulerModel.AddKeepsInvExactly` shows to be
  exactly what `add_thread` needs.
* The VFS invariant asks callers only that a mount leaves each open descriptor's path on its
  filesystem (`VfsModel.MountTarget` shows this is exactly what keeps descriptors on their files) and
  that a filesystem enters once. Paths and mountpoints are arbitrary strings, except that the rows
  about component lists speak of absolute paths without repeated slashes (`PathWith`) and of
  canonical mount tables: distinct mountpoints without repeated or trailing slashes.
* A process forest needs a spawn not to name its own new pid as parent
  (`ProcessModel.SpawnForestExactly`); fork always satisfies this.
* Frame accounting starts from free frames having owner 0, as a new memory has, and every
  operation keeps that.

## Where the code and its comments part

* Opening with `"w"` neither creates a missing file nor truncates an existing one; on a directory
  it creates a child named after the path (`computekernel_edu/vfs.py:234-240`;
  `VfsFiles.OpenRefines`, `VfsDescriptors.OpenThenWrite`).
* A path without a leading slash loses its first character in resolution
  (`computekernel_edu/vfs.py:204`), but not in creation. With one filesystem at "/", a file written to
  "xy" is created under that name and looked up as "y", so it cannot be read back; writing to "x" is
  refused, because without its one letter the path is the root directory
  (`VfsRoundTrip.RelativeNames`). `VfsRoundTrip.RoundTripExactly` states for all mount tables and all
  strings when writing then reading works.
* A file hidden by a mount further down its path stays reachable through a doubled slash
  (`VfsReach.ReachableByPathExactly`).
* Mounting twice on the same path does not shadow the first mount, because the sort is stable
  (`MountModel.RemountInert`).
* `wait4` ignores its child and option arguments; `exit` closes nothing, so reaping a process
  leaks its descriptors (`SyscallModel.LeakExactly`).
* Unmapping and destroying an address space return no frame, and `brk` moves the break although the
  mapping failed (`MemoryModel.FrameConservation`, `MemoryModel.BrkTilesExactly`).
* A process's `ppid` goes stale when the pid it names is recycled, and exactly then
  (`ProcessLinks.RunLinksExactly`); the children lists never do (`ProcessModel.RunForest`).
* With overlapping exports an unload drops a symbol another loaded module still exports
  (`ModuleModel.OverlapLosesSymbol`).

## Model

| member | source | states |
|---|---|---|
| `SchedulerModel.TickKeepsInv` | computekernel_edu/scheduler.py:105-150 | from any good state a tick keeps the partition of threads, makes the queue head the running thread with 1 to a full slice left (idle when the queue is empty), and leaves the queue as it was or rotated by one |
| `SchedulerModel.StepKeepsInv` | computekernel_edu/scheduler.py:54-150 | add, remove, block, wake and tick all keep queue and blocked list duplicate-free and disjoint, blocked threads asleep and the running thread unique |
| `SchedulerModel.AddKeepsInvExactly` | computekernel_edu/scheduler.py:54-63 | `add_thread` keeps a good state good if and only if the thread is neither blocked, idle nor current |
| `SchedulerModel.RunKeepsInv` | computekernel_edu/scheduler.py:54-155 | the partition invariant holds after every run of legal operations |
| `SchedulerModel.FreshInv` | computekernel_edu/scheduler.py:42-52 | a scheduler just initialised over any threads with positive slices is good |
| `SchedulerModel.BlockThenWake` | computekernel_edu/scheduler.py:70-103 | waking a thread just blocked restores everything but its place in the queue, its state and the CPU it gave up |
| `SchedulerSteps.InitExactly` | computekernel_edu/scheduler.py:42-52 | the thread becomes idle and RUNNABLE, nothing else changes, and the next tick of an empty queue runs it |
| `SchedulerSteps.SpawnExactly` | computekernel_edu/thread.py:80-106 | a spawned thread is NEW with a full slice and in no list; no other thread changes |
| `SchedulerSteps.AddExactly` | computekernel_edu/scheduler.py:54-63 | an added thread is RUNNABLE and queued, where it was or else at the tail; no other thread, list, counter, current or idle thread changes |
| `SchedulerSteps.RemoveExactly` | computekernel_edu/scheduler.py:65-68 | the thread is off the queue, the others keep their order, and nothing else changes |
| `SchedulerSteps.BlockExactly` | computekernel_edu/scheduler.py:70-86 | a queued thread sleeps with its reason, last among the sleepers, off queue and CPU; any other call does nothing |
| `SchedulerSteps.WakeExactly` | computekernel_edu/scheduler.py:88-103 | any sleeper, not only the last, is RUNNABLE without a reason at the tail of the queue; any other call does nothing |
| `SchedulerSteps.IdleTick` | computekernel_edu/scheduler.py:105-123 | a tick of an empty queue only counts and turns to the idle thread |
| `SchedulerSteps.ChargingTick` | computekernel_edu/scheduler.py:125-150 | a tick that leaves the head some of its slice charges the head and changes nothing else |
| `SchedulerSteps.ExpiringTick` | computekernel_edu/scheduler.py:125-150 | a tick that uses the slice up refills the head, moves it to the tail, dispatches the next thread with a full slice and counts one switch; no third thread changes |
| `SchedulerRounds.ClosedForm` | computekernel_edu/scheduler.py:105-155 | after any k >= 1 ticks on a fresh queue: the running thread is the one whose prefix-sum interval holds k mod S, with its remaining ticks, the rotation of the queue and the number of context switches |
| `SchedulerRounds.IntervalUnique` | computekernel_edu/scheduler.py:105-155 | the prefix-sum intervals are disjoint, so the closed form names one thread |
| `SchedulerRounds.FairShare` | computekernel_edu/scheduler.py:105-155 | over any number of whole periods each thread is charged exactly its slice per period |
| `SchedulerRounds.PhaseTick` | computekernel_edu/scheduler.py:125-148 | one tick leads from each (round, position, remaining) phase to its successor |
| `SchedulerWaiting.TickWait` | computekernel_edu/scheduler.py:105-150 | a tick lowers the waiting measure of every queued thread but the head by exactly one |
| `SchedulerWaiting.TicksWait` | computekernel_edu/scheduler.py:105-155 | under ticks alone a queued thread is charged at tick Wait + 1 and at no tick before |
| `SchedulerWaiting.StepWait` | computekernel_edu/scheduler.py:54-150 | adding, blocking, waking or removing other threads never raises a queued thread's measure |
| `SchedulerWaiting.StepAtHead` | computekernel_edu/scheduler.py:54-103 | a thread that reached the head stays there until a tick is charged to it |
| `SchedulerWaiting.NoStarvation` | computekernel_edu/scheduler.py:54-155 | in every run that leaves a thread queued and has more ticks than its initial measure, the thread gets the CPU |
| `SchedulerSteps.JoinWait` | computekernel_edu/scheduler.py:54-103 | a thread added to the queue or woken waits exactly for the ticks the threads queued before it still have coming |
| `SchedulerSteps.JoinGetsCpu` | computekernel_edu/scheduler.py:54-155 | a run that starts by adding or waking a thread, leaves it queued and has more ticks than that, gives it the CPU |
| `SchedulerClass.Scheduler.Init` | computekernel_edu/scheduler.py:42-52 | the given thread becomes the idle thread and RUNNABLE; the current thread and the queues stay as they are |
| `SchedulerClass.Scheduler.AddThread` | computekernel_edu/scheduler.py:54-63 | the object's new state is the specified one |
| `SchedulerClass.Scheduler.RemoveThread` | computekernel_edu/scheduler.py:65-68 | filters the queue and touches nothing else |
| `SchedulerClass.Scheduler.BlockThread` | computekernel_edu/scheduler.py:70-86 | scanning the queue and moving the found thread to the blocked list is the specified step |
| `SchedulerClass.Scheduler.WakeThread` | computekernel_edu/scheduler.py:88-103 | scanning the blocked list and requeueing the found thread is the specified step |
| `SchedulerClass.Scheduler.Tick` | computekernel_edu/scheduler.py:105-150 | the in-place tick over thread objects refines the specified tick and returns the running thread |
| `SchedulerClass.Scheduler.RunTicks` | computekernel_edu/scheduler.py:152-155 | the loop of n ticks refines n specified ticks |
| `ModuleModel.EmptyInv` | computekernel_edu/module_loader.py:44-49 | a loader with nothing loaded is good, whatever is registered |
| `ModuleModel.StepKeepsInv` | computekernel_edu/module_loader.py:55-119 | load and unload keep an order of the loaded modules with dependencies first, and every index entry naming a loaded module that exports it |
| `ModuleModel.RunKeepsInv` | computekernel_edu/module_loader.py:55-119 | the same after every sequence of loads and unloads, overlapping exports included |
| `ModuleModel.InvDependenciesLoaded` | computekernel_edu/module_loader.py:74-79 | every dependency of a loaded module is loaded, and is another module |
| `ModuleModel.LoadedAcyclic` | computekernel_edu/module_loader.py:74-79 | the dependency graph below loaded modules has no cycle |
| `ModuleModel.RegisterKeepsInvExactly` | computekernel_edu/module_loader.py:51-53 | registering an unloaded module over a name is harmless if and only if the name is not loaded, or nothing loaded needs it and no symbol points to it |
| `ModuleModel.StepKeepsExact` | computekernel_edu/module_loader.py:81-117 | loading keeps the index complete; a successful unload keeps it complete if and only if no other loaded module exports one of the dropped symbols |
| `ModuleModel.RunKeepsExact` | computekernel_edu/module_loader.py:81-131 | with pairwise disjoint exports the index is exactly the exports of the loaded modules after every run |
| `ModuleEvents.EventsKeepInv` | computekernel_edu/module_loader.py:51-119 | dependency safety and the sound index hold over every run that also registers modules, under any name that is not loaded at the time |
| `ModuleEvents.EventsKeepExact` | computekernel_edu/module_loader.py:51-131 | over such a run whose registered exports stay disjoint, the index is exactly the exports of the loaded modules |
| `ModuleEvents.NewNamesDisjoint` | computekernel_edu/module_loader.py:51-53 | when every registration is of a new name, exports disjoint at the end were disjoint all along |
| `ModuleModel.ExactDetermined` | computekernel_edu/module_loader.py:129-135 | with disjoint exports the loaded set determines the index |
| `ModuleModel.OverlapLosesSymbol` | computekernel_edu/module_loader.py:113-115 | a concrete run after which a loaded module's symbol is missing |
| `ModuleModel.UnloadInvertsLoad` | computekernel_edu/module_loader.py:55-119 | a newly loaded module can be unloaded, restoring the whole state if and only if none of its symbols was in the index |
| `ModuleSteps.LoadExactly` | computekernel_edu/module_loader.py:55-90 | a load succeeds if and only if modules are enabled, the module is registered, and it is loaded already or all its dependencies are; the first load adds it and points exactly its symbols to it, any other call changes nothing |
| `ModuleSteps.UnloadExactly` | computekernel_edu/module_loader.py:92-119 | an unload succeeds if and only if the module is registered and loaded and no loaded module depends on it; it takes away the module and exactly its symbols, a failure nothing |
| `ModuleSteps.RegisterExactly` | computekernel_edu/module_loader.py:51-53 | registering sets one name's module and loaded flag and touches no other name and no symbol |
| `ModuleSteps.DisabledLoadsNothing` | computekernel_edu/module_loader.py:61-63 | a disabled loader never loads anything in any run |
| `ModuleModel.LifoInverse` | computekernel_edu/module_loader.py:55-119 | unloading any list of newly loaded modules in reverse order succeeds throughout and restores the loaded set |
| `ModuleModel.LifoInverseExact` | computekernel_edu/module_loader.py:55-119 | with disjoint exports it restores the whole state |
| `ModuleReach.LoadPlan` | computekernel_edu/module_loader.py:55-90 | depth-first loading along an acyclic registered trail ends with the last module loaded and nothing unloaded |
| `ModuleReach.LoadedResolvable` | computekernel_edu/module_loader.py:74-79 | whatever is loaded has only registered, cycle-free transitive dependencies |
| `ModuleReach.ReachableExactly` | computekernel_edu/module_loader.py:51-119 | with modules enabled, some run loads a module if and only if its transitive dependencies are all registered and free of cycles |
| `ModuleLoaderClass.ModuleLoader.Register` | computekernel_edu/module_loader.py:51-53 | the object's new state is the specified one, whatever the module's flag |
| `ModuleLoaderClass.ModuleLoader.Load` | computekernel_edu/module_loader.py:55-90 | the loops over dependencies and exports compute the specified state and result |
| `ModuleLoaderClass.ModuleLoader.Unload` | computekernel_edu/module_loader.py:92-119 | the scan for dependents and the loop over exports compute the specified state and result |
| `ModuleLoaderClass.ModuleLoader.LookupSymbol` | computekernel_edu/module_loader.py:129-131 | in a good state the owner returned is loaded and exports the symbol; with an exact index no owner means that no loaded module exports it |
| `FrameModel.FreeFromContents` | computekernel_edu/memory.py:52-60 | the free list is ascending and holds exactly the free frames |
| `FrameModel.AllocPageTakesHead` | computekernel_edu/memory.py:62-71 | one allocation takes exactly the lowest free frame, and fails exactly when there is none |
| `FrameModel.AllocPagesExact` | computekernel_edu/memory.py:82-93 | a batch gives the n lowest free frames in ascending order with every other frame unchanged, or [] when fewer are free, and then restores every frame if and only if free frames had owner 0 |
| `FrameModel.AllocKeepsClean` | computekernel_edu/memory.py:62-93 | free frames keep owner 0 through every batch, successful or not |
| `FrameModel.FreeKeepsClean` | computekernel_edu/memory.py:73-80 | so does freeing any frame |
| `FrameModel.FreeInvertsAlloc` | computekernel_edu/memory.py:73-93 | freeing a batch restores the memory |
| `MemorySteps.FreeExactly` | computekernel_edu/memory.py:73-80 | freeing resets the one frame of that number, and none for a number out of range |
| `FrameModel.AllocLoopOwned` | computekernel_edu/memory.py:82-93 | a successful batch adds exactly n frames to its pid and none to another |
| `MemoryModel.MapPagesExact` | computekernel_edu/memory.py:198-211 | a mapping succeeds if and only if the address space exists and 1 <= pages needed <= free pages; a failure changes nothing |
| `MemoryModel.PagesNeededCeiling` | computekernel_edu/memory.py:203 | the page count is the ceiling of size / 4096 for every size |
| `MemoryModel.FrameConservation` | computekernel_edu/memory.py:182-221 | over every run of create, destroy, map and unmap, a pid owns what it owned plus the pages of its successful mappings, and the free pool shrank by all of them |
| `MemorySteps.MapExactly` | computekernel_edu/memory.py:198-211 | a successful mapping adds one area with the given extent, flags and name, last in its space, a failed one nothing; no other space changes |
| `MemorySteps.UnmapExactly` | computekernel_edu/memory.py:213-221 | unmapping answers whether some area of the pid starts there; then none does, every other area is there as often as before, and no other space, no frame and no failed call changes anything |
| `MemorySteps.UnmapKeepsOrder` | computekernel_edu/memory.py:142-146 | the areas left are exactly those that start elsewhere, in their old order |
| `MemorySteps.UnmapUndoesMap` | computekernel_edu/memory.py:198-221 | unmapping undoes a mapping at a start not in use, but for the frames |
| `MemorySteps.CreateExactly` | computekernel_edu/memory.py:182-191 | a new space has the text, data and stack areas at their addresses, apart from each other and never both writable and executable; nothing else changes |
| `MemorySteps.DestroyExactly` | computekernel_edu/memory.py:193-196 | destroying forgets one space and frees no frame |
| `MemorySteps.BrkExactly` | computekernel_edu/syscall.py:277-292 | brk answers the break it leaves: the old one without any change for 0 or no growth, else the new one with at most one heap area from the old break to the new; nobody else's break or areas change |
| `MemoryModel.BrkTilesExactly` | computekernel_edu/syscall.py:277-292 | growing the heap moves the break either way and keeps the heap areas tiling the heap if and only if enough frames are free |
| `MemoryModel.HeapTiling` | computekernel_edu/syscall.py:277-292 | in every run where a pid's memory is touched only by successful brk growths its heap areas keep tiling [base, brk), and the break never decreases |
| `MemoryModel.TilesCover` | computekernel_edu/memory.py:123-125 | an address is in a tiled range if and only if some area contains it |
| `MemoryModel.CreateTilesExactly` | computekernel_edu/syscall.py:284-291 | a new address space is tiled from exactly the break its pid left behind, because breaks survive pid reuse |
| `MemoryModel.TilingFromCreation` | computekernel_edu/syscall.py:277-292 | from its creation on, under a new or a recycled pid, an address space touched only by successful growths has heap areas that tile from the break it found, 0x601000 for a pid that never moved one |
| `MemoryClass.PhysicalMemoryManager.AllocPage` | computekernel_edu/memory.py:62-71 | the scan over page objects is the specified allocation |
| `MemoryClass.PhysicalMemoryManager.FreePage` | computekernel_edu/memory.py:73-80 | resets exactly the named frame, and nothing for a number out of range |
| `MemoryClass.PhysicalMemoryManager.AllocPages` | computekernel_edu/memory.py:82-93 | the loop with its rollback is the specified batch |
| `MemoryClass.PhysicalMemoryManager.FreePages` | computekernel_edu/memory.py:52-55 | counts exactly the free frames |
| `MemoryClass.AddressSpace.Unmap` | computekernel_edu/memory.py:142-146 | removes every area with that start, keeps the others in order, and says whether any went |
| `MemoryClass.VirtualMemoryManager.CreateAddressSpace` | computekernel_edu/memory.py:182-191 | installs a space with the three default areas and leaves the others alone |
| `MemoryClass.VirtualMemoryManager.DestroyAddressSpace` | computekernel_edu/memory.py:193-196 | forgets the space and frees no frame |
| `MemoryClass.VirtualMemoryManager.MapPages` | computekernel_edu/memory.py:198-211 | frames and areas change as specified, other address spaces not at all |
| `MemoryClass.VirtualMemoryManager.UnmapPages` | computekernel_edu/memory.py:213-221 | areas change as specified and no frame is freed |
| `PipeModel.WriteKeepsTail` | computekernel_edu/ipc.py:44-50 | after a write the buffer is the last 65536 bytes of the old contents followed by the data |
| `PipeModel.PushedOutDisplaced` | computekernel_edu/ipc.py:46-49 | a write displaces exactly the bytes that do not fit |
| `PipeModel.ReadExactly` | computekernel_edu/ipc.py:52-57 | a read takes as many bytes as asked for off the front, none for a size of 0 or less, all if there are fewer |
| `PipeModel.WriteExactly` | computekernel_edu/ipc.py:44-50 | a write is refused with -32 when either end is closed; else it takes every byte and the pipe keeps the last 65536 |
| `PipeModel.ClosedAcceptsNothing` | computekernel_edu/ipc.py:44-66 | in every run after an end was closed nothing is accepted, and what leaves the pipe goes to the readers in order |
| `PipeModel.RunAccounted` | computekernel_edu/ipc.py:44-66 | in every run the departed bytes followed by the buffer are the accepted bytes, in order |
| `PipeModel.StreamProperty` | computekernel_edu/ipc.py:44-66 | the buffer is a suffix of the accepted bytes of length at most 65536; accepted = read + displaced + buffered; reads followed by the buffer equal the writes if and only if nothing was displaced |
| `PipeModel.LosslessExactly` | computekernel_edu/ipc.py:44-66 | the pipe is a lossless FIFO in exactly the runs where no write overflows the capacity |
| `IpcClass.PipeObject.Write` | computekernel_edu/ipc.py:44-50 | the loop pushing byte by byte computes the specified buffer and count, or the error |
| `IpcClass.PipeObject.Read` | computekernel_edu/ipc.py:52-57 | the loop popping byte by byte computes the specified result |
| `IpcClass.PipeObject.CloseWrite` | computekernel_edu/ipc.py:59-61 | closes the write end and changes nothing else |
| `IpcClass.PipeObject.CloseRead` | computekernel_edu/ipc.py:63-65 | closes the read end and changes nothing else |
| `IpcClass.IpcManager.CreatePipe` | computekernel_edu/ipc.py:120-133 | the two next numbers, unused so far, lead to one new empty pipe; the counter moves past them and every other entry stays |
| `Paths.SplitAt` | computekernel_edu/vfs.py:204-205 | splitting at a slash splits both sides |
| `Paths.ParentAndName` | computekernel_edu/vfs.py:330-332 | for a stripped path with a slash, parent and name are the two sides of the last slash, and the components are the parent's plus the name |
| `Paths.NoParent` | computekernel_edu/vfs.py:330-332 | without a slash the parent is "/" and the name the whole stripped path |
| `Paths.RenderComps` | computekernel_edu/vfs.py:204-205 | splitting a rendered list of valid names gives the list back |
| `MountModel.AddMountInserts` | computekernel_edu/vfs.py:176-179 | append and stable re-sort keep the table sorted and amount to one insertion |
| `MountModel.MatchIsPrefix` | computekernel_edu/vfs.py:190-199 | for an absolute path without repeated slashes and a canonical mountpoint, the string test is component-wise prefix and the string left over has the components left over |
| `MountModel.PickIsLongest` | computekernel_edu/vfs.py:182-199 | for such a path and a canonical sorted table, the scan picks a mount if and only if it has the longest component prefix |
| `MountModel.OrderIndependent` | computekernel_edu/vfs.py:167-199 | for such a path and canonical tables, the pick does not depend on the order in which mounts were made |
| `MountModel.AddMountExactly` | computekernel_edu/vfs.py:167-199 | for such a path and a canonical table, a new mount takes over exactly the paths at or under it that no longer mount claims |
| `MountModel.PickAfterMount` | computekernel_edu/vfs.py:167-199 | for any sorted table and any strings, a new mount is picked exactly when it matches and what was picked matched less or only stood in at "/", or when nothing was picked and it is at "/"; otherwise the pick is unchanged |
| `MountModel.PickUnaffected` | computekernel_edu/vfs.py:167-199 | for any strings, a new mount that does not match a path leaves its pick alone |
| `MountModel.RemountInert` | computekernel_edu/vfs.py:176-179 | mounting again at a mounted path changes the pick of no path |
| `TmpFsModel.CreateTree` | computekernel_edu/fs_tmpfs.py:32-73 | creating an entry keeps the inodes a tree numbered 1..next-1 with parents before children |
| `TmpFsModel.WriteTree` | computekernel_edu/fs_tmpfs.py:84-96 | so does writing, at any non-negative offset, with size equal to the data's length |
| `TmpFsModel.RunTree` | computekernel_edu/fs_tmpfs.py:32-96 | the inodes form such a tree after every run |
| `TmpFsModel.OneEntryEach` | computekernel_edu/fs_tmpfs.py:63-73 | in every reachable filesystem each inode but the root has exactly one (directory, name) entry |
| `TmpFsModel.WalkPathOf` | computekernel_edu/vfs.py:206-214 | walking an inode's path from the root arrives at it |
| `TmpFsModel.PathInodeBijection` | computekernel_edu/vfs.py:206-214 | a walk reaches an inode if and only if it follows that inode's own path |
| `TmpFsModel.WalkStable` | computekernel_edu/fs_tmpfs.py:53-73 | a walk that succeeds gives the same inode in every later filesystem |
| `TmpFsModel.OverwriteOverlays` | computekernel_edu/fs_tmpfs.py:84-96 | a write inside or at the end of the file is a pointwise overlay of length max(old, offset + n) |
| `TmpFsModel.OverwriteFills` | computekernel_edu/fs_tmpfs.py:84-96 | past the end the gap is filled with zeros |
| `TmpFsModel.ReadAfterWrite` | computekernel_edu/fs_tmpfs.py:75-96 | reading where a write succeeded gives the written bytes |
| `TmpFsModel.LookupExactly` | computekernel_edu/fs_tmpfs.py:53-61 | a lookup finds exactly the existing inode that a directory lists under the name |
| `TmpFsModel.CreateExactly` | computekernel_edu/fs_tmpfs.py:63-73 | which of the two refusals a creation reports, both without change, and the one inode and entry a successful one makes |
| `TmpFsModel.WriteExactly` | computekernel_edu/fs_tmpfs.py:84-96 | -2 for a missing inode, -22 for one that is no file, both without change; else only that inode's bytes and size change |
| `TmpFsModel.ReadExactly` | computekernel_edu/fs_tmpfs.py:75-82 | only a regular file reads anything, from the offset at most what is asked for and left |
| `ByteStrings.SliceFromEnd` | computekernel_edu/fs_tmpfs.py:82 | a negative slice bound counts from the end and stops at the start |
| `TmpFsClass.TmpFs.LookupChild` | computekernel_edu/fs_tmpfs.py:53-61 | the specified lookup |
| `TmpFsClass.TmpFs.Create` | computekernel_edu/fs_tmpfs.py:32-73 | the new inode object and directory entry are the specified change, and no other inode changes |
| `TmpFsClass.TmpFs.Read` | computekernel_edu/fs_tmpfs.py:75-82 | the specified slice, also for a negative size |
| `TmpFsClass.TmpFs.Write` | computekernel_edu/fs_tmpfs.py:84-96 | the specified bytes, size and result, and no other inode changes |
| `VfsModel.StepInv` | computekernel_edu/vfs.py:167-394 | every legal operation keeps filesystems trees, cursors inside the data, and each descriptor on an existing inode |
| `VfsModel.RunInv` | computekernel_edu/vfs.py:167-394 | the same after every legal run |
| `VfsModel.MountTarget` | computekernel_edu/vfs.py:167-199 | a mount leaves an open descriptor on its file if and only if it is not picked for the descriptor's path or carries the same filesystem |
| `VfsModel.SliceFromCursor` | computekernel_edu/vfs.py:255-270 | a read from a cursor inside the data leaves it inside the data, for sizes of either sign |
| `VfsFiles.FlatViewOk` | computekernel_edu/vfs.py:255-289 | every reachable VFS is a set of flat byte files with cursors inside them |
| `VfsFiles.ReadRefines` | computekernel_edu/vfs.py:255-270 | a read is a read of the flat file: result, cursor, everything else unchanged |
| `VfsFiles.WriteRefines` | computekernel_edu/vfs.py:272-289 | a write is a splice into the flat file: the zero-fill branch is never reached, no other file or cursor changes |
| `VfsFiles.OpenRefines` | computekernel_edu/vfs.py:217-253 | an open succeeds if and only if the path resolves; the one new cursor stands, at 0 or for "a" at the end, on what the path resolves to, or on the child named like it when that is a directory opened writable; a file is new, and empty, if and only if that child was absent; no other file or cursor changes |
| `VfsFiles.OpenExactly` | computekernel_edu/vfs.py:217-253 | without "w" or "a", or on a regular file, an open changes no filesystem and stands on what the path resolves to; with one of them on a directory it stands on the entry named like the path, which it makes as one empty file exactly when the directory has none; no other descriptor, mount or filesystem changes |
| `VfsFiles.CloseRefines` | computekernel_edu/vfs.py:291-301 | a close forgets the cursor and nothing else |
| `VfsReads.ReadAllContiguous` | computekernel_edu/vfs.py:255-270 | any number of reads in a row return one contiguous slice, and leave the state one read of the total would |
| `VfsReads.StepUntouched` | computekernel_edu/vfs.py:167-394 | an operation that neither closes nor reads a descriptor nor writes to its file leaves the descriptor and the bytes under it alone |
| `VfsReads.StepKept` | computekernel_edu/vfs.py:167-394 | no operation changes an inode it does not write to, except by making an entry in it |
| `VfsReads.StepKeepsEntry` | computekernel_edu/vfs.py:167-394 | a descriptor that is not read, written or closed keeps its cursor and its filesystem |
| `VfsReads.ReadsConcatenate` | computekernel_edu/vfs.py:167-394 | over every run that neither closes a descriptor nor writes to its file, whatever else happens in between, its reads of any sizes together are one contiguous slice of the unchanged bytes, of the total length asked for up to the end when no size is negative |
| `VfsDescriptors.ReadPathRefines` | computekernel_edu/vfs.py:374-385 | read_path gives the first bytes of the flat file the path leads to, and nothing for a directory |
| `VfsDescriptors.OpenInPlace` | computekernel_edu/vfs.py:217-253 | except for a directory opened writable, an open changes no file and no path's contents |
| `VfsDescriptors.OpenThenRead` | computekernel_edu/vfs.py:217-270 | opening and then reading any number of times gives what one read_path of the total gives, also when opened for writing |
| `VfsDescriptors.WriteThenReadPath` | computekernel_edu/vfs.py:272-289 | what a descriptor writes is what read_path then returns for every path that leads to its file |
| `VfsDescriptors.OpenThenWrite` | computekernel_edu/vfs.py:217-289 | opening a regular file and writing once overlays it from the start without truncation, or with "a" appends, as read_path then shows |
| `VfsFiles.WriteVisible` | computekernel_edu/vfs.py:255-289 | what one descriptor writes, any other on the same file reads at that place |
| `VfsResolve.ResolveRefines` | computekernel_edu/vfs.py:182-215 | for an absolute path without repeated slashes and a canonical table, string resolution is the walk along the components left over by the longest matching mount, and finds no filesystem exactly when none matches |
| `VfsResolve.ResolveIsWalk` | computekernel_edu/vfs.py:201-215 | for any string, resolution is a walk along the components of what the picked mount leaves |
| `VfsReach.CanonicalPathReaches` | computekernel_edu/vfs.py:182-215 | in any canonical table, the canonical path of an inode below a mount resolves to it if and only if the names on its way are non-empty and slash-free and no longer mount claims the path |
| `VfsReach.ReachableByPathExactly` | computekernel_edu/vfs.py:182-215 | in any canonical table, some path string resolves to an inode if and only if its filesystem is mounted and every name on its way is non-empty and slash-free |
| `VfsResolve.MountResolves` | computekernel_edu/vfs.py:167-215 | a mount leaves what a resolved path resolves to alone if and only if it is not picked for the path, or carries the same filesystem and leaves the same components |
| `VfsResolve.StepResolves` | computekernel_edu/vfs.py:167-394 | one step leaves what a resolved path resolves to alone if and only if it is no mount that leads the path another way |
| `VfsResolve.ResolutionStable` | computekernel_edu/vfs.py:167-394 | a resolved path resolves to the same inode in every state of a run if and only if no mount of the run leads it another way |
| `VfsRoundTrip.ResolveInParent` | computekernel_edu/vfs.py:325-333 | when path and parent are in the same place (mounts of one filesystem, the path's components below being the parent's and the last name), resolving the path is looking up its last name in the parent |
| `VfsRoundTrip.SlashFreeNotSame` | computekernel_edu/vfs.py:204-205 | whatever the mounts, a path without a slash is never in the same place as its parent |
| `VfsRoundTrip.FoundAfter` | computekernel_edu/vfs.py:325-361 | after an entry for its last name was made under its parent, a path that led nowhere leads to the new inode if and only if path and parent are in the same place, and nowhere otherwise |
| `VfsRoundTrip.CreationExactly` | computekernel_edu/vfs.py:325-361 | for every table and string, mkdir and create_file succeed if and only if the parent is a directory in which the last name is free; a directory made for a path that led nowhere is found under it, empty, if and only if path and parent are in the same place |
| `VfsSteps.MkdirExactly` | computekernel_edu/vfs.py:325-342 | a successful mkdir makes one empty directory under the parent, with one entry, a failed one nothing |
| `VfsSteps.CreateFileExactly` | computekernel_edu/vfs.py:344-361 | a successful create_file makes one file with exactly the content under the parent, a failed one nothing |
| `VfsSteps.WritePathExactly` | computekernel_edu/vfs.py:387-394 | over a regular file the data goes over its start and the rest of its bytes stays; -22 for anything else that resolves, -2 when nothing resolves and nothing can be created, both without change; no other inode changes |
| `VfsSteps.NotOpen` | computekernel_edu/vfs.py:255-301 | a descriptor that is not open reads nothing, refuses writes with -9 and closing, and nothing changes |
| `VfsSteps.MountExactly` | computekernel_edu/vfs.py:167-180 | a mount adds itself to the sorted table and changes nothing else |
| `VfsRoundTrip.OverwriteRoundTrip` | computekernel_edu/vfs.py:374-394 | writing over an existing file and reading its path gives the data |
| `VfsRoundTrip.CreateRoundTrip` | computekernel_edu/vfs.py:344-394 | a new file is read back under its path, for a read of any size, if path and parent are in the same place, and otherwise nothing is |
| `VfsRoundTrip.SingleNameIsLost` | computekernel_edu/vfs.py:204-205 | whatever the mounts, a new file written to a slash-free path is not found under that path |
| `VfsRoundTrip.RelativeNames` | computekernel_edu/vfs.py:204-205 | with one filesystem at "/", a written "xy" is lost and a write to "x" is refused |
| `VfsRoundTrip.RoundTripExactly` | computekernel_edu/vfs.py:374-394 | for every mount table, every string and every content, after a successful write_path the read_path gives the data if and only if the path resolved before or is in the same place as its parent |
| `VfsRoundTrip.RoundTripNormal` | computekernel_edu/vfs.py:374-394 | with mountpoints that are "/" or absolute without a trailing slash, this means: if and only if the path resolved before or its stripped form has a slash |
| `VfsRoundTrip.SamePlaceIfPicked` | computekernel_edu/vfs.py:190-201 | a path with a slash whose parent goes through the same such mount is in the same place, whatever other mounts there are |
| `VfsRoundTrip.TrailingSlashMount` | computekernel_edu/vfs.py:190-201 | in a good state with a mountpoint ending in a slash, a path just below it is not in its parent's place and what is written is lost |
| `VfsClass.VfsObject.MountDisk` | computekernel_edu/vfs.py:167-180 | the specified mount table |
| `VfsClass.VfsObject.PickMount` | computekernel_edu/vfs.py:186-199 | the loop over mounts finds the specified mount |
| `VfsClass.VfsObject.ResolvePath` | computekernel_edu/vfs.py:182-215 | the loop over components gives the specified resolution |
| `VfsClass.VfsObject.Open` | computekernel_edu/vfs.py:217-253 | new descriptor object, possible new inode and number handed out are as specified |
| `VfsClass.VfsObject.Read` | computekernel_edu/vfs.py:255-270 | result and cursor are as specified, nothing else changes |
| `VfsClass.VfsObject.Write` | computekernel_edu/vfs.py:272-289 | result, inode and cursor are as specified, nothing else changes |
| `VfsClass.VfsObject.Close` | computekernel_edu/vfs.py:291-301 | the descriptor is gone, and the result says whether it was there |
| `VfsClass.VfsObject.Mkdir` | computekernel_edu/vfs.py:325-342 | the specified new directory or failure |
| `VfsClass.VfsObject.CreateFile` | computekernel_edu/vfs.py:344-361 | the specified new file with its content, or failure |
| `VfsClass.VfsObject.ReadPath` | computekernel_edu/vfs.py:374-385 | the specified bytes, or none for a missing path or a directory |
| `VfsClass.VfsObject.WritePath` | computekernel_edu/vfs.py:387-394 | overwriting or creating as specified |
| `ProcessModel.SpawnPids` | computekernel_edu/process.py:138-193 | a spawn hands out a pid nobody alive has, and live pids and free list keep partitioning [2, next) |
| `ProcessSteps.BootExactly` | computekernel_edu/process.py:160-169 | at boot there is only the runnable process 0, and 2 is handed out first |
| `ProcessSteps.SpawnExactly` | computekernel_edu/process.py:171-193 | a spawned process is NEW, no zombie, without children or descriptors, names its parent and ends its list; nobody else changes; its pid is the one freed longest ago, or else the next new one |
| `ProcessSteps.ForkExactly` | computekernel_edu/syscall.py:313-340 | a fork spawns a child of the caller's name, or refuses a dead caller with -22 |
| `ProcessSteps.ExitExactly` | computekernel_edu/syscall.py:360-374 | an exit makes its caller a zombie with that code and changes nothing else |
| `ProcessSteps.Wait4Frame` | computekernel_edu/syscall.py:376-401 | a wait that reaps removes that one process, from the caller's children too, and frees its pid; any other changes nothing |
| `ProcessSteps.ZombieExactly` | computekernel_edu/syscall.py:360-374 | in every run from boot a live process is a zombie if and only if its current incarnation exited, and its exit code is that of its last exit |
| `ProcessSteps.ReapedHadExited` | computekernel_edu/syscall.py:376-401 | in every run from boot wait4 only returns a process that exited since it was born |
| `ProcessModel.ChildFacts` | computekernel_edu/process.py:171-216 | a listed child is alive, names the list's owner as parent, was created by the owner's current incarnation, and is in no other list |
| `ProcessModel.RunForest` | computekernel_edu/process.py:171-216 | after every run the children lists hold exactly the live processes their owner's incarnation created, oldest first |
| `ProcessModel.ChainAcyclic` | computekernel_edu/process.py:171-216 | no process is its own descendant |
| `ProcessModel.SpawnForestExactly` | computekernel_edu/process.py:171-193 | a spawn keeps the forest if and only if it does not name its own new pid as parent |
| `ProcessLinks.StartLinks` | computekernel_edu/process.py:160-169 | a new process table starts with right parent pids |
| `ProcessLinks.LinksMeanChildren` | computekernel_edu/process.py:171-216 | parent pids can all be trusted if and only if the children of every process are exactly the processes that name it |
| `ProcessLinks.SpawnLink` | computekernel_edu/process.py:171-193 | a spawn makes a process's parent pid wrong if and only if it hands out the very pid the process names |
| `ProcessLinks.SpawnLinksExactly` | computekernel_edu/process.py:171-193 | a spawn keeps all parent pids right if and only if no live process names the pid it hands out |
| `ProcessLinks.RemoveLink` | computekernel_edu/process.py:203-216 | a removal makes no parent pid wrong and leaves those that name the removed pid with nobody |
| `ProcessLinks.StepLinksExactly` | computekernel_edu/syscall.py:313-401 | fork and spawn keep parent pids right under exactly that condition; exit and wait4 always do |
| `ProcessLinks.RunLinksExactly` | computekernel_edu/syscall.py:313-401 | parent pids are right in every state of a run if and only if the run never recycles a pid that a live process names |
| `ProcessLinks.StaleParent` | computekernel_edu/process.py:203-216 | a run that does recycle one: a zombie's ppid names a process that is not its parent and does not reap it |
| `ProcessModel.Wait4Exact` | computekernel_edu/syscall.py:376-401 | wait4 fails exactly for a dead caller, returns 0 exactly when the caller's incarnation created no zombie, and otherwise reaps the oldest such zombie and frees its pid |
| `ProcessModel.DrainExact` | computekernel_edu/syscall.py:376-401 | repeated wait4 ends, having reaped exactly the caller's zombies in spawn order, with the other children kept, exactly the reaped gone from the table and their pids on the free list in that order |
| `ProcessModel.ExitIsReaped` | computekernel_edu/syscall.py:360-401 | after a child's exit, draining by its parent reaps the child, removes it from the table and frees its pid |
| `ProcessClass.PidAllocator.Alloc` | computekernel_edu/process.py:138-144 | whatever the live pids are, if live and freed ones split [2, next) then the pid handed out is not live and the split is kept with it live |
| `ProcessClass.PidAllocator.Free` | computekernel_edu/process.py:146-149 | freeing a live pid keeps the split with the pid no longer live; 0 and 1 are never handed out again |
| `ProcessClass.ProcessTable.PidsSplit` | computekernel_edu/process.py:124-169 | the allocator's split of pids into live and freed is exactly pid conservation of the table |
| `ProcessClass.ProcessTable.Spawn` | computekernel_edu/process.py:171-193 | the table of process objects changes as specified |
| `ProcessClass.ProcessTable.Remove` | computekernel_edu/process.py:203-216 | the process leaves the table and its parent's list, and its pid is freed, as specified |
| `SyscallModel.DispatchCoherent` | computekernel_edu/syscall.py:171-401 | every system call keeps each process's descriptors open in the VFS with the same path and flags, and no descriptor in two tables |
| `SyscallModel.RunCoherent` | computekernel_edu/syscall.py:171-401 | the same after every run of system calls by any processes |
| `SyscallModel.NeverReused` | computekernel_edu/vfs.py:246-253 | the descriptors a run hands out are consecutive new numbers, whatever was closed meanwhile |
| `SyscallModel.ErrorsExactly` | computekernel_edu/syscall.py:171-205 | read and write fail with -9 exactly when the process's own table lacks the descriptor; the VFS's invalid-descriptor branch is never reached |
| `SyscallModel.LeakExactly` | computekernel_edu/syscall.py:360-401 | a call makes exactly the descriptors of a process it reaps unreachable, and none ever comes back |
| `SyscallSteps.DispatchRoutes` | computekernel_edu/syscall.py:104-165 | each call goes to its own handler |
| `SyscallSteps.CloseExactly` | computekernel_edu/syscall.py:228-240 | close answers -22 for a dead caller, -9 for a descriptor not held, else 0, and then the descriptor is gone at both levels; every other descriptor, cursor, file and process and the memory stay as they were |
| `SyscallSteps.ClosedForGood` | computekernel_edu/syscall.py:171-240 | after a close no process can read, write or close that descriptor again, over every later run of system calls |
| `SyscallSteps.ReadExactly` | computekernel_edu/syscall.py:171-186 | a read answers how many bytes lie between the cursor and where it stops, at most as many as asked for and left; the cursor moves by that and nothing else changes |
| `SyscallSteps.WriteExactly` | computekernel_edu/syscall.py:188-205 | console writes take every byte and change nothing; -22 and -9 without change; a write through a held descriptor touches only the VFS |
| `SyscallSteps.OpenatExactly` | computekernel_edu/syscall.py:207-226 | -22 for a dead caller or an empty path and -2 for an unresolved one, without change; otherwise the caller alone holds the new descriptor with that path and flags |
| `SyscallSteps.OpenThenSysRead` | computekernel_edu/syscall.py:171-226 | the first read after an openat answers the number of bytes read_path gives |
| `SyscallSteps.ForkExactly` | computekernel_edu/syscall.py:313-340 | a fork gives the child no descriptor and a fresh address space without heap; no file, frame, break, other space or other process's descriptor changes |
| `SyscallSteps.OthersAlone` | computekernel_edu/syscall.py:277-401 | exit, wait4 and brk leave the VFS alone; exit keeps every descriptor, wait4 all but the reaped process's |
| `SyscallClass.SyscallDispatcher.SysRead` | computekernel_edu/syscall.py:171-186 | the objects change as the specified read |
| `SyscallClass.SyscallDispatcher.SysWrite` | computekernel_edu/syscall.py:188-205 | the objects change as the specified write |
| `SyscallClass.SyscallDispatcher.SysOpenat` | computekernel_edu/syscall.py:207-226 | both descriptor levels change as specified |
| `SyscallClass.SyscallDispatcher.SysClose` | computekernel_edu/syscall.py:228-240 | both descriptor levels change as specified |
| `SyscallClass.SyscallDispatcher.SysFork` | computekernel_edu/syscall.py:313-340 | process table and address spaces change as specified |
| `SyscallClass.SyscallDispatcher.SysExit` | computekernel_edu/syscall.py:360-374 | the process becomes a zombie and nothing else changes |
| `SyscallClass.SyscallDispatcher.FindZombie` | computekernel_edu/syscall.py:389-396 | the loop over the children finds the first zombie |
| `SyscallClass.SyscallDispatcher.SysWait4` | computekernel_edu/syscall.py:376-401 | the process table changes as specified and nothing else does |
| `SyscallClass.SyscallDispatcher.SysBrk` | computekernel_edu/syscall.py:277-292 | break, areas and frames change as specified |

## Left out

- `computekernel_edu/fs_ext2.py`: its first create replaces the root inode, so the tree properties do not hold there; every mounted filesystem is a TmpFS.
- Shell, console, logger, teaching text, profiles and table printing: input, output or static data.
- Boot stages, architecture tables, power, security, safe mode, signals, devices and drivers: single-branch state that would add only easy members.
- The ELF loader: a sequence of mappings whose results it ignores.
- Argument trimming and the register form of `SyscallDispatcher.dispatch`: handlers take typed arguments.
- The handlers for mmap, munmap, nanosleep, kill, getpid and execve: one call or one assignment each.
- The text a write to descriptors 1 and 2 logs.
- `TidAllocator` and `ThreadTable`: the same free list as `PidAllocator`; threads are told apart by tid, so the structural equality of Python's dataclass, which could confuse two threads, is not modelled.
- Credentials, working directory, command line, file modes, owners and timestamps.
- Symbolic links, device nodes, `readdir`, `stat` and usage statistics; a path's `.` and `..` are ordinary names, as in the code.
- `FileDescriptorTable.alloc`: the dispatcher writes the table directly and never calls it.
- `KmallocAllocator`, `AddressSpace.lookup`, `check_access` and `simulate_page_fault`: a bump allocator and pure queries.
- Negative read sizes are modelled, and covered by VfsReads; ReadRefines relates reads to flat files for non-negative sizes only, since a negative size means an end counted from the back.
- Filesystem identity: a mount holds the number of a filesystem, not a reference to it.
