# BoringKernel in Dafny

A model of the state machines at the heart of BoringKernel, with proofs of what they keep over every run. Each
component comes as a pair of modules. The first states what the component does on plain values (sequences, maps, sets)
and proves properties of it. The second has the kernel's own data structures (linked headers, registries, rings,
bitmaps, fixed tables), updated in place by the kernel's own loops, and every operation of it is proved to do exactly
what the first one says.

| component | meaning | data structures |
|---|---|---|
| kernel heap: first fit, split, coalesce, page growth | `HeapSpec` | `KernelHeap` |
| scheduler: circular selection, block and wake, exit, timer tick | `SchedulerSpec`, `SchedulerLaws` | `Scheduler` |
| RAM file system: tree of names, file bodies | `RamfsTree`, `RamfsLaws` | `Ramfs` |
| inter-process communication | `IpcSpec`, `IpcLaws` | `IpcSystem` |
| physical frames | `FrameSpec`, `FrameLaws` | `FrameAllocator`, `Bits` |
| UDP over IPv4 over Ethernet | `PacketSpec`, `PacketLaws` | `Packets` |
| canonical working directory | `PathSpec` | `WorkingDirectory` |
| pseudo-terminals and descriptors | `PtySpec`, `TerminalLaws` | `TerminalSystem` |
| presenting to the framebuffer | `DisplaySpec`, `ColorMasks`, `DisplayLaws` | `Display` |
| ELF loader | `ElfSpec`, `ElfFormat` | `ElfLoader` |

`Machine`, `Rings` and `Collections` hold what several components share. In the second modules, a lemma whose name ends
in `Is` unfolds one definition, so that the methods can be verified with all other definitions hidden. A module whose
name ends in `Laws`, and `ElfFormat`, says from outside when each call succeeds and what it does, in terms of what a
caller sees and in plain numbers, so that a mistake made alike in a specification and in its method is noticed.

Answers of code outside a component are parameters: whether a frame can be mapped, a process activated, memory
allocated, a file closed, a buffer retained. The theorems hold for all of them. `dafny verify dfyconfig.toml` checks the
project.

Where the code and what one would expect of it differ, the model follows the code. When a task exits and the nearest
eligible task belongs to the same process, the switch comes first, process_mark_finished refuses a process that is
current, and the machine halts (`SchedulerSpec.ExitHaltsExactly`, with a run in `SchedulerSpec.ExitCanHalt`). Binding a descriptor to the terminal
end it already names fails when it holds the last reference to that end, because the old descriptor is closed first
(`PtySpec.BindExact`, with a run that loses a byte in `PtySpec.RebindCanFail`). A changed word escapes the Internet checksum when 0 becomes 0xffff or back
(`PacketSpec.OneWordError`).

## Model

| member | source | states |
|---|---|---|
| `HeapSpec.MallocMeaning` | kernel/core/heap.c:424-448 | kmalloc answers NULL exactly for a bad size or when the pages it needs are refused or past the region; otherwise the payload is aligned, at least as large as asked for and less than 80 bytes larger, shares no byte with a live one, and all live payloads stay |
| `HeapSpec.MallocServes` | kernel/core/heap.c:424-448 | a request is served exactly when its size is between 1 and 16 MiB less 48 bytes and, after adding some number of pages that are to be had, there is a free block of that size rounded up to 16 |
| `HeapSpec.NeedLeast` | kernel/core/heap.c:190-323 | no smaller number of pages than the one added would do |
| `HeapSpec.FreshHeapServes` | kernel/core/heap.c:367-448 | after heap_init every possible size is served when the pages are to be had |
| `HeapSpec.AllocateExactly` | kernel/core/heap.c:190-323 | the grow-and-retry loop in closed form: exactly the missing pages are added, then the first fit is taken |
| `HeapSpec.TakeFresh` | kernel/core/heap.c:272-323 | the payload handed out is aligned and belonged to nobody |
| `HeapSpec.GrowByTail` | kernel/core/heap.c:190-244 | growing changes nothing before the last block and appends at most one |
| `HeapSpec.LiveDisjoint` | kernel/core/heap.c:109-155 | payloads of two used blocks never overlap in a tiling heap |
| `HeapSpec.FreeMeaning` | kernel/core/heap.c:450-514 | kfree succeeds exactly on the payload address of a used block, frees that block only, and otherwise changes nothing |
| `HeapSpec.DoubleFree` | kernel/core/heap.c:450-514 | a second kfree of the same pointer is refused, even after merging |
| `HeapSpec.FreeUndoesTake` | kernel/core/heap.c:272-365 | taking a block and freeing it restores the block list exactly |
| `HeapSpec.MallocFreeRoundTrip` | kernel/core/heap.c:424-514 | kfree after kmalloc gives back the heap, with only its free tail grown by the pages that were added |
| `HeapSpec.BytesTile` | kernel/core/heap.c:516-550 | used + free + 48 bytes a block = mapped bytes |
| `HeapSpec.RunKeeps` | kernel/core/heap.c:367-514 | after any calls with any answers of the frame allocator the blocks tile the mapped pages, sizes are aligned and no two neighbours are free |
| `HeapSpec.LiveUntilFreed` | kernel/core/heap.c:367-514 | over every run without a kfree of it a live payload stays live at its size |
| `HeapSpec.HandedOutApart` | kernel/core/heap.c:424-448 | whatever kmalloc hands out at any point of such a run, at its full size, shares no byte with that payload |
| `HeapSpec.InitialWellFormed` | kernel/core/heap.c:367-422 | the heap of heap_init is well formed |
| `KernelHeap.KernelHeap.Init` | kernel/core/heap.c:367-422 | succeeds exactly when both pages are unmapped and two frames and two mappings are to be had; then two frames of the pool are mapped and hold one free block; otherwise frame pool and page table are as before and no heap exists |
| `KernelHeap.Rollback` | kernel/core/heap.c:166-178 | unmapping and freeing in reverse order gives frame pool and page table back |
| `KernelHeap.KernelHeap.Validate` | kernel/core/heap.c:109-155 | the walk with its guards and back links accepts a memory if and only if it holds some well-formed block list |
| `KernelHeap.KernelHeap.GrowOnePage` | kernel/core/heap.c:190-244 | the linked headers afterwards spell out the grown list, or nothing changed |
| `KernelHeap.KernelHeap.FindFit` | kernel/core/heap.c:258-270 | the linked-list walk returns the first fitting free block |
| `KernelHeap.KernelHeap.AllocateFromBlock` | kernel/core/heap.c:272-323 | the header writes spell out the list with that block taken, split when the rest is big enough |
| `KernelHeap.KernelHeap.MergeWithNext` | kernel/core/heap.c:325-365 | the header writes spell out the list with the two neighbours merged |
| `KernelHeap.KernelHeap.KMalloc` | kernel/core/heap.c:424-448 | the memory and the result refine the specified allocation; heap_corrupted is never set |
| `KernelHeap.KernelHeap.KFree` | kernel/core/heap.c:450-514 | the memory and the answer refine the specified free; heap_corrupted is never set |
| `KernelHeap.KernelHeap.GetStats` | kernel/core/heap.c:516-550 | used and free bytes are those of the list, and the allocations are as many as the live payloads |
| `SchedulerSpec.SelectNearest` | kernel/core/task.c:281-341 | selection never passes over an eligible task for one farther away in registry order |
| `SchedulerSpec.SelectNone` | kernel/core/task.c:281-341 | nobody is selected exactly when nobody else is eligible |
| `SchedulerSpec.GiveUpMeaning` | kernel/core/task.c:587-666 | yield and block hand the CPU to the nearest eligible task, and change nothing when there is none or it cannot be activated |
| `SchedulerSpec.ExitMeaning` | kernel/core/task.c:705-736 | an exit that does not halt leaves the task finished, its process not alive, and the nearest eligible task or the bootstrap task running in another process |
| `SchedulerSpec.ExitHaltsExactly` | kernel/core/task.c:705-736 | an exit halts the machine if and only if it is not the running cooperative code of a user process that makes it, the next process cannot be activated or the old one not be cleaned up, or the nearest eligible task belongs to the same process |
| `SchedulerSpec.ExitCanHalt` | kernel/core/process.c:341-357 | a run from task_init that ends in such a halt: two tasks of one process, the first to run exits |
| `SchedulerSpec.FinishMeaning` | kernel/core/task.c:1166-1206 | a task that returns is finished; under preemption it waits for the tick, otherwise, when the next process can be activated, the nearest eligible task or the bootstrap task runs |
| `SchedulerSpec.FinishHaltsExactly` | kernel/core/task.c:1166-1206 | that halts the machine if and only if no registered task was running, or without preemption the next process cannot be activated |
| `SchedulerSpec.TickIs` | kernel/core/task.c:1060-1150 | in a safe state the tick has only these outcomes: fault, carry on, or switch |
| `SchedulerSpec.TickFaultsExactly` | kernel/core/task.c:1060-1150 | a tick faults if and only if the interrupted frame is bad or a needed activation is refused |
| `SchedulerSpec.TickToBootstrap` | kernel/core/task.c:1094-1135 | a tick hands a task's CPU to the bootstrap task only, and always, when every registered task is finished |
| `SchedulerSpec.StepKeeps` | kernel/core/task.c:587-736 | every call keeps: at most one task running and it is the current one, its process live and active |
| `SchedulerSpec.RunKeeps` | kernel/core/task.c:587-1206 | the same over every run of calls and ticks from task_init |
| `SchedulerSpec.InitialSafe` | kernel/core/task.c:516-559 | task_init establishes it |
| `SchedulerSpec.StepTransitions` | kernel/core/task.c:587-736 | the only state changes a call can make to a task, per call and per state: only yield, block, finish, exit and tick move a running task, each to its own state, or let a ready one run; only a wake of its process moves a blocked one; none moves a finished one |
| `SchedulerSpec.FinishedForever` | kernel/core/task.c:587-1206 | a finished task never runs again, over every run |
| `SchedulerSpec.BlockedUntilWoken` | kernel/core/task.c:633-703 | a blocked task stays blocked through every run without a wake of its process |
| `SchedulerSpec.TickAdvances` | kernel/core/task.c:1060-1150 | each tick brings the CPU strictly closer to every ready task in circular order |
| `SchedulerSpec.SteadyStep` | kernel/core/task.c:402-1150 | while preemption is on the registry is frozen and only ticks move the CPU |
| `SchedulerSpec.BoundedWaiting` | kernel/core/task.c:311-341 | with n registered tasks, preemption on and no fault, a ready task is the current one and running within n ticks whatever else is called |
| `SchedulerSpec.CooperativeWaiting` | kernel/core/task.c:587-736 | without preemption a ready task gets the CPU within n yields, whatever tasks block, wake, finish and exit in between, while the registry stays, code keeps running and its process lives |
| `SchedulerSpec.DistanceBound` | kernel/core/task.c:311-341 | that distance is between 1 and n |
| `Scheduler.Scheduler.Append` | kernel/core/task.c:107-117 | the linked registry spells out the old list with the task at the end |
| `Scheduler.Scheduler.Remove` | kernel/core/task.c:119-135 | the linked registry spells out the old list without the task |
| `Scheduler.Scheduler.IsRegular` | kernel/core/task.c:91-105 | the walk finds exactly the registered tasks |
| `Scheduler.Scheduler.SelectNext` | kernel/core/task.c:281-341 | the circular walk over the links finds the specified task |
| `Scheduler.Scheduler.Yield` | kernel/core/task.c:587-631 | refines the specified yield and keeps the invariant |
| `Scheduler.Scheduler.Block` | kernel/core/task.c:633-666 | refines the specified block; it answers true exactly when a cooperative task gave the CPU away, that is without preemption, with another task eligible and its process activated |
| `Scheduler.Scheduler.Wake` | kernel/core/task.c:678-703 | wakes exactly the blocked cooperative tasks of a live process, and says whether there were any |
| `Scheduler.Scheduler.Finish` | kernel/core/task.c:1166-1206 | refines the specified end of a task, which under preemption waits for the tick |
| `Scheduler.Scheduler.Exit` | kernel/core/task.c:705-736 | refines the specified end of a process |
| `Scheduler.Scheduler.Start` | kernel/core/task.c:983-1034 | preemption starts exactly from the bootstrap task over ready preemptive tasks |
| `Scheduler.Scheduler.Stop` | kernel/core/task.c:1036-1058 | refines the specified stop |
| `Scheduler.Scheduler.Tick` | kernel/core/task.c:1060-1150 | refines the specified tick, save and switch, and keeps the invariant |
| `Scheduler.Scheduler.Create` | kernel/core/task.c:402-514 | a new ready task at the end of the registry with the next id, or nothing |
| `Scheduler.Scheduler.Reap` | kernel/core/task.c:855-921 | removes exactly the tasks of a finished process, all of them or none |
| `Scheduler.Scheduler.Cleanup` | kernel/core/task.c:923-981 | empties the registry exactly when all tasks are finished and says how many there were |
| `Scheduler.Scheduler.MarkFinished` | kernel/core/process.c:341-357 | succeeds exactly for a live process other than the bootstrap one whose address space is not loaded and whose memory and descriptors can be cleaned up; the process then leaves the live ones, otherwise nothing changes |
| `SchedulerLaws.WakeExactly` | kernel/core/task.c:678-703 | a wake readies every blocked task of a live process and nothing else |
| `SchedulerLaws.YieldSwitches` | kernel/core/task.c:587-631 | a yield takes the CPU from the running code exactly when, without preemption, a ready cooperative task of a live process is there and can be activated; otherwise nothing changes |
| `SchedulerLaws.BlockSwitches` | kernel/core/task.c:633-666 | so does a block, when the running code is a cooperative task |
| `SchedulerLaws.CreateExactly` | kernel/core/task.c:402-514 | a task is created exactly for a live process, without preemption, below 64 tasks, ids and memory permitting; it comes last and ready with the next id |
| `SchedulerLaws.StartExactly` | kernel/core/task.c:983-1034 | preemption starts exactly from the bootstrap task over at least one task, all ready, preemptive, live and resumable |
| `SchedulerLaws.StopExactly` | kernel/core/task.c:1036-1058 | the bootstrap task and nobody else stops it |
| `SchedulerLaws.ReapExactly` | kernel/core/task.c:855-921 | the tasks of a dead process leave together exactly when all are finished; the others keep their order |
| `SchedulerLaws.CleanupExactly` | kernel/core/task.c:923-981 | the registry is emptied exactly by the bootstrap task when every task is finished |
| `SchedulerLaws.TickHandsOver` | kernel/core/task.c:1060-1150 | an undisturbed tick hands the CPU to the nearest ready task, readies the interrupted one unless finished, and leaves everybody else; with nobody ready the interrupted one carries on |
| `SchedulerLaws.FaultsCounted` | kernel/core/task.c:1060-1150 | a tick that faults is counted, ends preemption and leaves every state; no other tick is counted |
| `SchedulerLaws.AnswersTrue` | kernel/core/task.c:402-981 | create, block, wake, reap and cleanup report success exactly when they changed something |
| `RamfsTree.DepthBounded` | kernel/core/ramfs.c:608-631 | by pigeonhole every node is fewer than the table size steps from the root |
| `RamfsTree.CheckCycleExact` | kernel/core/ramfs.c:608-631 | the bounded walk never reports corruption and refuses exactly the moves of a directory into itself or below itself |
| `RamfsTree.CycleLosesRoot` | kernel/core/ramfs.c:633-691 | the refused move would cut the directory off the root |
| `RamfsTree.RenameExact` | kernel/core/ramfs.c:633-691 | rename succeeds exactly when every node would stay connected to the root |
| `RamfsTree.CreateKeeps` | kernel/core/ramfs.c:401-448 | creating keeps a rooted tree with unique sibling names and fresh ids |
| `RamfsTree.RemoveKeeps` | kernel/core/ramfs.c:524-606 | removing keeps it |
| `RamfsTree.RenameKeeps` | kernel/core/ramfs.c:633-691 | renaming keeps it |
| `RamfsTree.RunKeeps` | kernel/core/ramfs.c:401-691 | so does every run of calls |
| `RamfsTree.FreshWellFormed` | kernel/core/ramfs.c:904-965 | a new file system is such a tree |
| `Ramfs.WriteThenRead` | kernel/core/ramfs.c:693-801 | a read sees the last write, the old bytes elsewhere, zeros in a gap |
| `Ramfs.CutBytesStayCut` | kernel/core/ramfs.c:734-859 | bytes cut off by a truncate never reappear: through any run of truncates and writes each is missing or reads as zero until a write of the run stores it |
| `Ramfs.WrittenBody` | kernel/core/ramfs.c:734-801 | zeroing the gap and copying in place is the specified overwrite of the live part |
| `Ramfs.ChildrenExact` | kernel/core/ramfs.c:861-902 | a listing names every child exactly once and nothing else |
| `Ramfs.FileSystem.CreateNode` | kernel/core/ramfs.c:401-522 | refines the specified creation; every file body stays |
| `Ramfs.FileSystem.RemoveNode` | kernel/core/ramfs.c:524-606 | refines the specified removal; other bodies stay and the capacity is given back |
| `Ramfs.FileSystem.ValidateRenameCycle` | kernel/core/ramfs.c:608-631 | the loop answers what the specified walk answers |
| `Ramfs.FileSystem.RenameNode` | kernel/core/ramfs.c:633-691 | refines the specified rename; bodies stay |
| `Ramfs.FileSystem.ReadNode` | kernel/core/ramfs.c:693-732 | the buffer gets exactly the slice of the file, the rest of it stays |
| `Ramfs.FileSystem.PrepareCapacity` | kernel/core/ramfs.c:322-382 | a replacement is offered exactly when capacity and heap allow |
| `Ramfs.FileSystem.WriteNode` | kernel/core/ramfs.c:734-801 | the file becomes the specified overwrite; other files and the names stay; capacity keeps its limit |
| `Ramfs.FileSystem.TruncateNode` | kernel/core/ramfs.c:803-859 | the file is cut or zero-extended; other files and the names stay |
| `Ramfs.FileSystem.ReadDirectory` | kernel/core/ramfs.c:861-902 | the index-th child in slot order, or the end |
| `RamfsLaws.CreateExactly` | kernel/core/ramfs.c:401-522 | creating succeeds exactly in a directory, under a legal name no child has, with a vacant slot and an id left; it fills one vacant slot with an unheld node of a new id and changes nothing else |
| `RamfsLaws.RemoveExactly` | kernel/core/ramfs.c:524-606 | removing takes exactly the child of that name if it is of the right kind, childless and not held, and otherwise says which of these it is not |
| `RamfsLaws.RemoveRefused` | kernel/core/ramfs.c:524-606 | without such a child nothing changes |
| `RamfsLaws.HeldStays` | kernel/core/ramfs.c:524-606 | no call removes or replaces a node somebody holds |
| `RamfsLaws.HeldStaysForever` | kernel/core/ramfs.c:524-606 | nor does any run, until it is let go |
| `RamfsLaws.RenameExactly` | kernel/core/ramfs.c:633-691 | renaming moves exactly the child of the old name, unless another node has the new one or the directory would come below itself |
| `RamfsLaws.RenameRefused` | kernel/core/ramfs.c:633-691 | without such a child, or out of order, nothing changes |
| `RamfsLaws.SliceBytes` | kernel/core/ramfs.c:693-732 | a read delivers the bytes from the offset on, as many as asked for and present |
| `RamfsLaws.ResizedBytes` | kernel/core/ramfs.c:803-859 | a truncate leaves that many bytes, the old ones and then zeros |
| `RamfsLaws.IoServed` | kernel/core/ramfs.c:693-801 | a read or write is served exactly for a regular file and at most 4096 bytes, a write if besides the file stays within 8192 bytes and its buffer holds it or a larger one is to be had within 32 KiB for all files |
| `RamfsLaws.TruncateServed` | kernel/core/ramfs.c:803-859 | likewise for a truncate |
| `IpcSpec.RunKeeps` | kernel/core/ipc.c:572-996 | over every run handles match live services and open sides one to one, unaccepted sides wait exactly once, closed sides have empty queues, retained references equal queued attachments |
| `IpcSpec.StepKeeps` | kernel/core/ipc.c:572-996 | each call keeps it |
| `IpcSpec.InitialInv` | kernel/core/ipc.c:530-547 | initialisation establishes it |
| `IpcSpec.AcceptSound` | kernel/core/ipc.c:668-728 | accept never answers INTERNAL |
| `IpcSpec.CloseKeeps` | kernel/core/ipc.c:927-962 | close keeps the correspondence and never answers INTERNAL |
| `IpcSpec.CloseSideIs` | kernel/core/ipc.c:445-477 | closing a side empties its queue, keeps the other side as it is, and frees the slot if the other side is closed |
| `IpcSpec.UnregisterKeeps` | kernel/core/ipc.c:513-528 | turning every pending connection away and freeing the service keeps everybody's correspondence |
| `IpcSpec.CleanupExact` | kernel/core/ipc.c:964-996 | cleanup leaves no handle, service, pending entry or open side of the process, whatever the slot order, and everything of others as it was |
| `IpcSpec.RegisterResolves` | kernel/core/ipc.c:572-610 | the service is found under its name, owned by its process; its handle names it, all other handles resolve as before |
| `IpcSpec.CloseExact` | kernel/core/ipc.c:927-962 | what the handle named is the process's no more, and everything of others is as it was |
| `IpcSpec.ConnectResolves` | kernel/core/ipc.c:612-666 | the new connection waits last, its handle names the client side, all other handles resolve as before |
| `IpcSpec.AcceptResolves` | kernel/core/ipc.c:668-728 | the connection that waited longest is taken, the new handle names its server side, all other handles resolve as before |
| `IpcSpec.RunDelivers` | kernel/core/ipc.c:730-874 | while a side stays open: waiting + sent = received + waiting, in order, exactly once |
| `IpcSpec.RefusedReceive` | kernel/core/ipc.c:802-874 | a receive that delivers nothing changes nothing |
| `IpcSpec.PeerClosedMeansDrained` | kernel/core/ipc.c:802-874 | PEER_CLOSED appears only after everything sent was received |
| `IpcSpec.CloseMakesStale` | kernel/core/ipc.c:317-326 | closing a handle moves its slot to the next generation |
| `IpcSpec.StaleForever` | kernel/core/ipc.c:294-326 | over every run without a cleanup of its process, a closed handle never resolves again until the slot has been retired as often as there are generations |
| `IpcSpec.DecodeEncode` | kernel/core/ipc.c:84-101 | decoding an encoded handle gives slot and generation back |
| `IpcSystem.System.constructor` | kernel/core/ipc.c:530-547 | the cleared tables stand for the initial state |
| `IpcSystem.System.FindServiceNamed` | kernel/core/ipc.c:343-356 | the scan finds the first active service of that name |
| `IpcSystem.System.CheckName` | kernel/core/ipc.c:549-570 | accepts exactly the names of 1 to 31 lower-case letters, digits, dots, underscores and dashes |
| `IpcSystem.System.InstallHandle` | kernel/core/ipc.c:266-292 | refines the installation of a handle in a free slot |
| `IpcSystem.System.LookupHandle` | kernel/core/ipc.c:294-315 | finds the slot exactly when the handle resolves |
| `IpcSystem.System.ReleaseQueue` | kernel/core/ipc.c:432-443 | the emptied ring gives back exactly the references its messages carried |
| `IpcSystem.System.CloseConnectionSide` | kernel/core/ipc.c:445-477 | the slot in the table stands for the connection with that side closed |
| `IpcSystem.System.UnregisterService` | kernel/core/ipc.c:513-528 | the loop over the pending ring refines the specified removal |
| `IpcSystem.System.ServiceRegister` | kernel/core/ipc.c:572-610 | table, handle and answer are the specified ones |
| `IpcSystem.System.ServiceConnect` | kernel/core/ipc.c:612-666 | table, pending ring, handle and answer are the specified ones |
| `IpcSystem.System.ServiceAccept` | kernel/core/ipc.c:668-728 | table, pending ring, handle and answer are the specified ones |
| `IpcSystem.System.SendMessage` | kernel/core/ipc.c:730-800 | the ring gets the message at its tail exactly when specified; the tail slot is always free |
| `IpcSystem.System.ReceiveMessage` | kernel/core/ipc.c:802-874 | the oldest message leaves the ring and its bytes fill the front of the buffer, exactly when specified; when the attachment cannot be committed the message stays although its bytes are already in the buffer; any other refusal leaves the buffer alone |
| `IpcSystem.System.CloseHandle` | kernel/core/ipc.c:927-962 | refines the specified close |
| `IpcSystem.System.ProcessCleanup` | kernel/core/ipc.c:964-996 | the loop over the slots refines the specified cleanup |
| `IpcLaws.NamedExactly` | kernel/core/ipc.c:294-315 | a handle names exactly what a slot of its process holds at its present generation |
| `IpcLaws.RegisterAnswers` | kernel/core/ipc.c:572-610 | registering answers each of its results exactly when the name is illegal, taken, or there is no free service, table or slot; a refusal leaves at most an empty table |
| `IpcLaws.ConnectAnswers` | kernel/core/ipc.c:612-666 | connecting succeeds exactly for a registered name with fewer than sixteen pending, a free connection and a free slot; NOT_FOUND exactly for a legal name nobody has |
| `IpcLaws.AcceptAnswers` | kernel/core/ipc.c:668-728 | accepting hands out a connection exactly when one waits and a slot is free, and answers WOULD_BLOCK exactly when none waits |
| `IpcLaws.SendAnswers` | kernel/core/ipc.c:730-800 | a message is sent exactly when it has at most 256 bytes, the peer is open, fewer than sixteen wait and its buffer is retained; it then waits last and nothing else changes |
| `IpcLaws.ReceiveAnswers` | kernel/core/ipc.c:802-874 | a message is received exactly when one waits, fits and its buffer is adopted; WOULD_BLOCK and PEER_CLOSED tell an open peer from a closed one; the oldest leaves and nothing else changes |
| `IpcLaws.CloseAnswers` | kernel/core/ipc.c:927-962 | closing succeeds on every handle that names something and on nothing else |
| `Rings.Push` | kernel/core/ipc.c:479-491 | writing at (head + count) modulo the size appends to the contents |
| `Rings.Pop` | kernel/core/ipc.c:502-511 | advancing the head takes the oldest |
| `FrameSpec.FrameInOneEntry` | kernel/core/pmm.c:215-341 | every managed frame lies wholly in one usable entry and touches no other entry |
| `FrameSpec.NoFrameLost` | kernel/core/pmm.c:268-331 | unless the tables were capped, every whole frame of usable memory is managed |
| `FrameSpec.FramesApart` | kernel/core/pmm.c:177-213 | two frames never share a byte |
| `FrameSpec.FindExact` | kernel/core/pmm.c:177-213 | frame index and frame address name each other |
| `FrameSpec.AllocExact` | kernel/core/pmm.c:343-399 | a range allocation fails exactly when no free frame starts in the range |
| `FrameSpec.FreeUndoesAlloc` | kernel/core/pmm.c:343-416 | freeing what was allocated restores the bitmap |
| `FrameSpec.NotHandedOutTwice` | kernel/core/pmm.c:343-416 | over every run a taken frame is handed out to nobody until it is freed |
| `FrameSpec.StepCounts` | kernel/core/pmm.c:343-416 | the free count moves with the clear bits |
| `Bits.BitChanged` | kernel/core/pmm.c:113-158 | setting or clearing a bit with its mask changes that bit and no other |
| `FrameAllocator.Allocator.CheckMap` | kernel/core/pmm.c:238-271 | the double loop accepts exactly the maps without malformed or clashing entries |
| `FrameAllocator.Allocator.Initialise` | kernel/core/pmm.c:215-341 | succeeds exactly when specified, with the specified regions and every frame free; on failure no region, frame or bit is left set |
| `FrameAllocator.Allocator.SetBit` | kernel/core/pmm.c:128-142 | the bitmap then marks that frame and no other |
| `FrameAllocator.Allocator.ClearBit` | kernel/core/pmm.c:144-158 | the bitmap then frees that frame and no other |
| `FrameAllocator.Allocator.FindFrame` | kernel/core/pmm.c:177-213 | the scan of the regions finds the specified frame |
| `FrameAllocator.Allocator.FindFree` | kernel/core/pmm.c:343-399 | the nested search finds the first free frame of the range, or there is none |
| `FrameAllocator.Allocator.AllocInRange` | kernel/core/pmm.c:343-399 | address, bitmap and count are the specified ones |
| `FrameAllocator.Allocator.FreeFrame` | kernel/core/pmm.c:405-416 | answer, bitmap and count are the specified ones |
| `FrameLaws.InitExactly` | kernel/core/pmm.c:215-341 | a map is accepted exactly when it has 1 to 4096 proper entries, none usable or the bootloader's sharing a byte with another, none usable in the last page, and some whole usable frame |
| `FrameLaws.CappedExactly` | kernel/core/pmm.c:268-331 | frames are left out, and the map marked as capped, exactly beyond 64 usable entries with frames or 8388608 frames |
| `FrameLaws.AllocExactly` | kernel/core/pmm.c:343-399 | an allocation takes the first free frame that starts in the range |
| `FrameLaws.FreeExactly` | kernel/core/pmm.c:405-416 | a release frees exactly the taken frame at that address |
| `FrameLaws.StepOthers` | kernel/core/pmm.c:343-416 | the marks of all other frames stay |
| `PacketSpec.SentIsParsed` | kernel/core/net.c:563-661 | every frame built for this card or for broadcast, padded or not, is accepted and gives the same addresses, ports and payload back |
| `PacketSpec.FoldIs` | kernel/core/net.c:158-200 | folding carries is arithmetic modulo 0xffff with zero kept apart |
| `PacketSpec.OwnChecksum` | kernel/core/net.c:158-200 | a sum with its own checksum verifies to 0, also when 0 is sent as 0xffff |
| `PacketSpec.HeaderVerifies` | kernel/core/net.c:372-389 | the IPv4 header verifies to 0 |
| `PacketSpec.DatagramVerifies` | kernel/core/net.c:647-659 | the UDP checksum sent is never 0 and verifies |
| `PacketSpec.OneWordError` | kernel/core/net.c:158-176 | a single changed word escapes the checksum exactly when 0 became 0xffff or back in data that is not all zero |
| `PacketSpec.ErrorCanEscape` | kernel/core/net.c:158-176 | the words 0xffff 0 and 0xffff 0xffff have the same checksum |
| `Packets.NetChecksum` | kernel/core/net.c:158-176 | the loops compute the specified checksum |
| `Packets.ChecksumUdp` | kernel/core/net.c:178-200 | the loops compute the specified checksum with the pseudo-header |
| `Packets.SumFits` | kernel/core/net.c:178-200 | the 32-bit sums cannot wrap |
| `Packets.Network.Ipv4Header` | kernel/core/net.c:372-389 | the twenty bytes are the specified header with its checksum and the next identification |
| `Packets.Network.SendUdp` | kernel/core/net.c:624-661 | the buffer holds the specified frame, or the payload is too long and nothing was touched |
| `Packets.Network.ParseUdp` | kernel/core/net.c:563-622 | accepts and reads exactly what is specified |
| `PacketLaws.BigEndian` | kernel/core/net.c:104-125 | numbers are sent most significant byte first |
| `PacketLaws.PseudoIs` | kernel/core/net.c:178-200 | the words summed are those of the twelve bytes of the pseudo-header of RFC 768, both addresses included |
| `PacketLaws.UdpChecksumIs` | kernel/core/net.c:178-200 | the UDP checksum is the Internet checksum of pseudo-header and datagram |
| `PacketLaws.SumPadded` | kernel/core/net.c:158-176 | an odd last byte counts as if a zero followed |
| `PacketLaws.FrameLayout` | kernel/core/net.c:624-661 | where every field of a transmitted frame lies and what it holds |
| `PacketLaws.ParseExactly` | kernel/core/net.c:563-622 | a frame is accepted if and only if it is addressed to the card or everyone, carries an unfragmented IPv4 packet of protocol 17 with a header that verifies, and a datagram inside it whose checksum is absent or right; the fields are read where they lie |
| `PacketLaws.DamageIsRefused` | kernel/core/net.c:563-661 | a transmitted frame with one word changed, in the packet header behind its length, the ports or the payload, is not accepted, unless 0 became 0xffff or back |
| `PathSpec.ResolveCanonical` | kernel/core/syscall.c:1370-1426 | the result is canonical: good names only, within VFS_PATH_MAX |
| `PathSpec.CanonicalText` | kernel/core/syscall.c:1370-1426 | its text starts with '/', never has two slashes in a row, has no '.' or '..' part and no trailing slash but the root's |
| `PathSpec.CanonicalIsFixed` | kernel/core/syscall.c:1370-1426 | canonicalising a canonical path gives it back |
| `PathSpec.RenderInjective` | kernel/core/syscall.c:1321-1368 | different stacks have different texts |
| `PathSpec.ResolveJoin` | kernel/core/syscall.c:1370-1426 | going to a and then to a relative b is going to a/b |
| `PathSpec.StepDown` | kernel/core/syscall.c:1341-1368 | going to one name goes down exactly when the name has at most 255 bytes and the text at most 1024 |
| `PathSpec.StepUp` | kernel/core/syscall.c:1370-1426 | '.' and nothing stay, '..' drops the last name and stays at the root, '/' goes to the root |
| `PathSpec.DownAndUp` | kernel/core/syscall.c:1370-1426 | a name that fits followed by '..' leads back |
| `WorkingDirectory.CwdPop` | kernel/core/syscall.c:1321-1339 | cutting the text back to the last slash pops the stack; the root absorbs it |
| `WorkingDirectory.CwdAppend` | kernel/core/syscall.c:1341-1368 | succeeds exactly when the name and the longer text fit, and then shows the longer stack |
| `WorkingDirectory.BuildCanonicalCwd` | kernel/core/syscall.c:1370-1426 | succeeds exactly when every step fits, and then the buffer shows the directory the path names |
| `PtySpec.RunKeeps` | kernel/core/pty.c:123-248 | over every run each end has exactly as many references as descriptors of all tables and creators name it |
| `PtySpec.StepKeeps` | kernel/core/fd.c:57-94 | each call keeps it: create, release, bind, install, clone, close, destroy, read, write |
| `PtySpec.InitialInv` | kernel/core/pty.c:96-106 | the cleared tables satisfy it |
| `PtySpec.NamedIsLive` | kernel/core/fd.c:240-274 | no descriptor outlives the pair it names |
| `PtySpec.CreateFresh` | kernel/core/pty.c:123-154 | the pair taken by a creation is one that nothing names, under any generation, so generations may wrap |
| `PtySpec.BindExact` | kernel/core/fd.c:240-274 | the exact answer: CORRUPT when the VFS does not close the old file, success when the terminal is live and the old descriptor does not hold the last reference to it, INVALID otherwise |
| `PtySpec.BindFailure` | kernel/core/fd.c:240-274 | a bind that fails has closed the old descriptor: it is cleared and its reference dropped, with the pair reset when it was the last, and nothing else changed |
| `PtySpec.RebindCanFail` | kernel/core/fd.c:240-274 | a run from pty_init after which binding a descriptor to the live terminal it names fails, and the terminal is gone with the byte waiting in it |
| `PtySpec.DestroyExact` | kernel/core/fd.c:57-94 | a table goes exactly when the VFS closes every file in it, each with its own answer, and with it every name; otherwise the slots before the first file that will not close are gone and the others are as they were |
| `PtySpec.RunDelivers` | kernel/core/pty.c:184-248 | while a pair is in use each end reads exactly the bytes the other wrote, in order |
| `PtySpec.HupMeansDrained` | kernel/core/pty.c:184-214 | a read reports HUP only after every byte written was read |
| `TerminalSystem.System.CreateTerminal` | kernel/core/pty.c:123-154 | the first unused pair, cleared, with the next generation |
| `TerminalSystem.System.RetainTerminal` | kernel/core/pty.c:156-163 | counts a reference to a live end below the maximum |
| `TerminalSystem.System.CloseTerminal` | kernel/core/pty.c:165-182 | drops a reference; the last one resets the pair |
| `TerminalSystem.System.ReleaseTerminal` | kernel/core/pty.c:165-182 | a creator gives up its reference as specified |
| `TerminalSystem.System.ReadTerminal` | kernel/core/pty.c:184-214 | the byte loop drains the ring into the front of the buffer as specified |
| `TerminalSystem.System.WriteTerminal` | kernel/core/pty.c:216-248 | the byte loop fills the ring as specified |
| `TerminalSystem.System.BindTerminal` | kernel/core/fd.c:240-274 | table, references and answer are the specified ones |
| `TerminalSystem.System.CloneStandard` | kernel/core/fd.c:276-307 | table, references and answer are the specified ones, also within one table |
| `TerminalSystem.System.InstallTerminal` | kernel/core/fd.c:309-324 | binds in the first free slot that is not a standard one |
| `TerminalSystem.System.CloseFile` | kernel/core/fd.c:416-444 | table, references and answer are the specified ones |
| `TerminalSystem.System.DestroyTable` | kernel/core/fd.c:57-94 | the loop over the slots is the specified one, with an answer of the VFS for each file, also when it stops half-way |
| `TerminalSystem.System.InitialiseTable` | kernel/core/fd.c:35-55 | the three console descriptors and nothing else |
| `TerminalSystem.System.OpenFile` | kernel/core/fd.c:117-152 | a file goes in the first free slot that is not a standard one |
| `TerminalLaws.LiveExactly` | kernel/core/pty.c:56-69 | an end is live exactly while a descriptor or a creator names it |
| `TerminalLaws.ReadExactly` | kernel/core/pty.c:184-214 | a read takes the oldest bytes present; with none it answers HUP exactly when nobody is left to write |
| `TerminalLaws.WriteExactly` | kernel/core/pty.c:216-248 | a write appends what fits in 4096 bytes; it answers HUP exactly when nobody is left to read |
| `TerminalLaws.UseExactly` | kernel/core/fd.c:341-355 | a descriptor is read or written exactly with that access |
| `TerminalLaws.CreateExactly` | kernel/core/pty.c:123-154 | a creation takes an unused pair, empty, with one reference to each end and the next generation, exactly when there is one |
| `TerminalLaws.BindInstalls` | kernel/core/fd.c:240-274 | after a bind the descriptor names that terminal with that access, and no other descriptor changed |
| `TerminalLaws.CloneExactly` | kernel/core/fd.c:276-307 | a clone binds or accepts exactly what the source descriptor allows |
| `TerminalLaws.CloseExactly` | kernel/core/fd.c:416-444 | files close as the VFS says, terminals always, consoles never; only that descriptor changes |
| `TerminalLaws.OpenExactly` | kernel/core/fd.c:117-152 | an opened file gets the first free descriptor past the standard ones |
| `TerminalLaws.InstallExactly` | kernel/core/fd.c:309-324 | so does a terminal that is live and not referenced too often |
| `TerminalLaws.InitExactly` | kernel/core/fd.c:35-55 | a table starts once, with the consoles alone |
| `DisplaySpec.RegionsAgree` | kernel/core/framebuffer_user.c:118-249 | after a full present, presenting a list of regions of another buffer shows that buffer in full exactly when the two look alike outside the regions |
| `DisplaySpec.ChangedInside` | kernel/core/framebuffer_user.c:118-249 | in particular when they differ only inside the regions |
| `DisplaySpec.OwnBytes` | kernel/core/framebuffer.c:68-109 | under a valid pitch the bytes of a pixel are its own and inside the framebuffer |
| `DisplaySpec.PixelOf` | kernel/core/framebuffer.c:68-109 | every pixel byte belongs to one part of one pixel |
| `ColorMasks.MasksShareNothing` | kernel/core/framebuffer.c:36-66 | the three masks have pairwise no bit in common exactly when the bit ranges of the channels do not meet |
| `ColorMasks.PackKeeps` | kernel/core/graphics.c:33-50 | a packed colour is the bitwise or of its scaled channels, and masking it with a channel's mask gives that channel back |
| `Display.Screen.StorePixel` | kernel/core/graphics.c:52-82 | stores that pixel's bytes and no others |
| `Display.Screen.PutPixel` | kernel/core/graphics.c:84-94 | stores exactly that pixel's bytes, or nothing when the pixel is off the surface |
| `Display.Screen.PresentChunk` | kernel/core/framebuffer_user.c:75-98 | the chunk's pixels are shown, the rest is as before |
| `Display.Screen.PresentRegionRow` | kernel/core/framebuffer_user.c:166-215 | one row of the rectangle is shown, in chunks of the scratch page, the rest is as before |
| `Display.Screen.Present` | kernel/core/framebuffer_user.c:118-153 | the answer, INTERNAL exactly when the user's buffer cannot be read as often as it has scratch pages; the framebuffer then shows the whole buffer, or exactly the pages read; the counters move, saturating, only on success |
| `Display.Screen.PresentRegion` | kernel/core/framebuffer_user.c:217-249 | the answer, with INTERNAL likewise; the framebuffer then shows the buffer inside the rectangle, or in exactly the rows and columns read; the counters move, saturating, only on success |
| `Display.Screen.Claim` | kernel/core/framebuffer_user.c:54-73 | one owner at a time |
| `Display.Screen.Release` | kernel/core/framebuffer_user.c:251-259 | only the owner releases |
| `DisplayLaws.ScaleNearest` | kernel/core/graphics.c:23-31 | a channel value becomes the nearest of as many bits; black, full and eight-bit values are kept |
| `DisplayLaws.PixelBytes` | kernel/core/graphics.c:70-73 | the four bytes of a pixel are its colour, least significant first |
| `DisplayLaws.TrueColorShown` | kernel/core/framebuffer_user.c:75-98 | with eight bits a channel a pixel's bytes are those of the buffer: blue, green, red, zero |
| `DisplayLaws.RectExactly` | kernel/core/framebuffer_user.c:155-164 | a rectangle is accepted exactly when it has pixels and all are on the screen |
| `DisplayLaws.UsualDisplays` | kernel/core/framebuffer_user.c:22-52 | true-colour displays up to 1920 by 1080 are accepted |
| `DisplayLaws.OtherDisplays` | kernel/core/framebuffer_user.c:22-52 | larger ones, other depths and overlapping rows are not |
| `DisplayLaws.CountsExactly` | kernel/core/framebuffer_user.c:100-116 | what a present adds to the counters, which stop at the top |
| `DisplayLaws.PartsLeast` | kernel/core/framebuffer_user.c:136-150 | a buffer takes the least number of scratch pages that covers it |
| `ElfSpec.AcceptedImage` | kernel/core/elf_loader.c:262-411 | pages of an accepted program are aligned, in the user half, never writable and executable, and clear of the guard page |
| `ElfSpec.AcceptedApart` | kernel/core/elf_loader.c:262-411 | no two pages of an accepted program, stack included, share an address |
| `ElfSpec.EntryInPlan` | kernel/core/elf_loader.c:602-613 | the entry point lies in an executable page that is not writable |
| `ElfSpec.OwnedPop` | kernel/core/elf_loader.c:448-477 | giving the last page back restores pool and page map |
| `ElfSpec.OwnedFacts` | kernel/core/elf_loader.c:425-513 | owned frames are distinct and out of the pool, and mapped addresses lead to their own frames |
| `ElfLoader.ValidateSource` | kernel/core/elf_loader.c:262-411 | the scan accepts exactly the acceptable executables whose header reads are all answered, returns their segments, and takes one read for each header |
| `ElfLoader.Loader.MapOwnedPage` | kernel/core/elf_loader.c:479-513 | a zeroed frame is owned and mapped, or the refusal is accounted for |
| `ElfLoader.Loader.Unload` | kernel/core/elf_loader.c:448-477 | every frame and mapping taken is given back |
| `ElfLoader.Loader.LoadSegmentPage` | kernel/core/elf_loader.c:551-590 | the page holds the file bytes that belong to it, then zeros |
| `ElfLoader.Loader.LoadSource` | kernel/core/elf_loader.c:515-622 | a load succeeds if and only if the executable is acceptable, the kernel half is supervisor-only, and frames, mappings, free addresses and reads suffice for exactly its pages; it then maps file bytes, zeros and the stack; otherwise it gives back every frame and mapping |
| `ElfFormat.AcceptedExactly` | kernel/core/elf_loader.c:262-411 | a file is accepted if and only if its bytes carry the header of a 64-bit x86-64 executable and one to eight program headers, wherever they lie, that make a program: no type 2 or 3, and segments of type 1 that are aligned, in the file, in the lower half, readable and not both writable and executable, clear of each other, the stack and its guard page, at most four of sixteen pages, one executable one holding the entry; these are the segments loaded |

## Left out

- Interrupts: disabling and enabling them around an operation makes it one atomic step here.
- Null pointers: arguments that C checks against NULL are values here.
- Kernel heap: zeroing of mapped pages, and payload bytes, are not modelled; after heap_init the frame allocator and the page mapper answer with a number of pages they still grant.
- Guard words: computed as in the code, but a forged header with a right guard word is not ruled out by anything but the list structure.
- Scheduler: stacks, sentinels, saved registers and interrupt flags; a saved frame is valid or not, a process can be activated or not.
- Scheduler counters: yields, switches, slices, created and finished tasks are not modelled.
- Scheduler.Scheduler.Tick: the state of the interrupted task is looked at before its frame is stored, which differs only in states no run reaches; the second look at the chosen frame is folded into one.
- Scheduler.Scheduler.Exit: which address space stays loaded after a halt is not stated; what process_mark_finished asks of memory, devices and descriptors is one answer.
- Scheduler processes leave the live ones by an exit or by process_mark_finished alone; the legacy launch, which unloads a child and marks it finished from its parent's side (kernel/core/syscall.c:2320-2338), is not a call of the model.
- Scheduler.Scheduler.Reap: kfree of a live stack and task object is taken to succeed, here and in Scheduler.Scheduler.Cleanup.
- RAMFS: the list of mounted instances, statistics and destruction; VFS path objects become slot numbers; kfree of a live body succeeds.
- RAMFS size arithmetic: overflow checks that the node size limit makes unreachable are not repeated.
- IPC registry: the linked list of process states is a map from process to handle table.
- IPC identities: a process pointer is its pid; a pointer is not reused while handles remain, so the owner_pid mismatch branch is not modelled.
- IPC poll, statistics and wake-ups of peers: a wake-up has no effect on the state modelled.
- IpcSystem.System.ServiceAccept: the INTERNAL answers are in the specification, where they are proved impossible; the method does not repeat the checks.
- User buffers: retaining and adopting an attachment answer as parameters; a reference is a number in a multiset.
- A process dies only after boring_ipc_process_cleanup; legacy processes that exit without it are not modelled.
- Physical frames: null map entries, statistics, and checks that an initialised allocator cannot fail are not repeated; alignment masks are written as divisions.
- Packets: ARP, DHCP, DNS, ICMP, the card itself and all waiting; a frame is handed over as bytes.
- Working directory: the path is a text without NUL; looking the result up in the VFS and storing it in the process are not modelled.
- Terminals: waiters, polling and statistics; regular files are descriptors that the VFS opens and closes; access bits outside read and write.
- PtySpec.Step: reads and writes go through descriptors of the right access, as kernel_fd_read_pty and kernel_fd_write_pty do.
- Display: boot-time set-up, lines and rectangles of graphics.c, the breadcrumb variant, and the address range of the framebuffer.
- Display.Screen.Present: what a failed read of the user's buffer leaves in the scratch page is not stated, here and in Display.Screen.PresentRegion.
- ELF loader: frames that page tables themselves take; frame 0 is not usable; a mapped page can be unmapped; the checks that the process may be loaded are a precondition.
- Not modelled at all, because they would add only easy members or need the hardware: drivers, ACPI, USB, the VFS layer, address spaces, syscall dispatch and user copies, consoles, the BoringFS tools.
