# njuos in Dafny

njuos is a small message-passing kernel: servers for memory, files and devices talk to processes through mailboxes.
This project models its stateful components and proves what they promise, over all inputs and over whole runs.

How it is laid out:

- **Indexed files.** `Bytes`, `Counting`, `FileLayout`, `FileSteps`, `TableSteps`, `FileRelease`, `FileGaps`, `FileManager`,
  `InodeTable`, `FileSystem`.
  A file is an inode with 12 direct pointers and single and double indirect blocks of 256 bytes. The abstract view of a
  file is found by chasing pointers on the disk image (`FileBytes`); well-formedness (`WellFormed`) says that all its
  blocks are valid, distinct, marked, and nobody else's. `TableSteps` handles the index buffers that are written back
  late: the *pending* disk is the disk with the buffers laid over it. `InodeTable` lays the inodes out below the blocks;
  `FileSystem` puts many files on one disk.
- **Directories.** `DirEntries` (36-byte entries, lookup, paths) and `Directories` (the operations).
- **Messages and scheduling.** `Processes` (the PCB pool), `Ring` (the intrusive lists), `Pools` (records of a pool in
  such lists), `Scheduler` (the rings as sequences), `ProcessRings` (the rings as linked nodes inside the PCBs, each
  operation proved to be the one on sequences), `Mailbox`, `MessageRings` (its slots as linked nodes), `Kernel` (events
  of the whole kernel, cut at `sleep()`: messages, the timer, and processes that are created, replaced by exec, and
  gone), `KernelMachine` (the code over `ProcessRings` and one `MessageRings` for each
  process, each operation proved to be one of those events).
- **Address spaces.** `PageLayout`, `PageSteps`, `SegmentSteps`, `PageManager` (the page allocator and the MEMORY
  server's operations), `Translation`, `AddressSpaces` (all processes, whole runs), `KernelCopy`.
- **Drivers, shell and the rest.** `Wrappers` (an option type), `SectorCache`, `TimerQueue` (the delta queue as a
  sequence) and `TimerRings` (as linked nodes), `LineDiscipline` and `Console`, `Screen`, `ShellPath`.

Conventions: device input and output are plain copies within the device's bounds; a C assertion or panic is a
precondition, or a result that says whether the operation runs through; searches that never end when nothing is free
(`get_free_block`, `get_idle_page`, `get_free_disk_inode`) demand that something is free, counted exactly; for a walk
of `_create_dir` that is the sum over the components that are missing when the walk gets to them.

Where the code does not do what it is meant to do, the code is modelled as it is, and a lemma gives the exact
condition under which it does: `FileRelease.TruncationExact` and `FileRelease.KeepExact`, `FileGaps.GapExact`,
`Kernel.LossExact` and `Kernel.ReinitExact`, `AddressSpaces.SegmentExact`, `SectorCache.InitExact`,
`ShellPath.ReadAsIntended`, `TimerQueue.FeasibleExactly`, `LineDiscipline.DeleteExactly`, and the `ok` results of
`KernelCopy`. Inputs that fail are in `FileManager.DirectTruncationExample`, `FileManager.StaleIndexExample`,
`FileManager.GapExample`, `FileManager.PastExample`, `Kernel.ExecDrops`, `AddressSpaces.LoadTwice`,
`SectorCache.InitLoses`, `KernelCopy.EndExample` and `ShellPath.StrayExample`. `ShellPath.ReadAsIntended` is about all
prefixes of a path; for the final result alone only one direction is given (`StaysCanonical`), since a later ".." can
undo a stray component. The comment in `create_kernel_dir` says that user processes should not visit kernel space; the
code clears the user bit for the mapping at 0 only, and `Translation.KernelClosed` says so.

## Model

| member | source | states |
|---|---|---|
| `FileManager.Store.GetFreeBlock` | src/kernel/file_system/fm_backstage.c:68-76 | a block that was free is marked and returned, no other bit changes, and the cyclic search ends whenever some block is free |
| `FileManager.Store.DevWrite` | src/kernel/drivers/ramdisk/ramdisk.c:55-66 | a plain copy; its precondition is the driver's own bound, so every access of the operations below is proved to satisfy it |
| `FileManager.Store.DevRead` | src/kernel/drivers/ramdisk/ramdisk.c:43-53 | the same for reads into a caller's buffer |
| `FileManager.Store.WriteDirect` | src/kernel/file_system/fm_syscall.c:364-381 | the direct phase writes as many bytes as fit below level_end0, makes exactly the blocks that begin there, and keeps everybody else's, whether or not the blocks before the offset are there |
| `FileManager.Store.WriteSingle` | src/kernel/file_system/fm_syscall.c:382-415 | the single-indirect phase, with its table held in index_block1 until the write-back |
| `FileManager.Store.WriteDouble` | src/kernel/file_system/fm_syscall.c:416-468 | the double-indirect phase, with two tables held back at a time |
| `FileManager.Store.WriteData` | src/kernel/file_system/fm_syscall.c:364-542 | for every file well-formed up to the offset (its size, or further on in its last block: TailRoom) and every buffer the free blocks can take: the bytes up to the offset are followed by buf, the file is well-formed up to there, the size grows by the whole length, and no block of anybody else changes |
| `FileManager.Store.ReadData` | src/kernel/file_system/fm_syscall.c:221-321 | for every offset and length, exactly the bytes of the request that lie in the file arrive in the buffer, in place and no others, through all three index levels |
| `FileManager.CurReadLen` | src/kernel/file_system/fm_syscall.c:213-219 | a chunk never crosses a block end, the request or the file's end, and ends at one of them |
| `FileSteps.TripleLevelDemand` | src/kernel/file_system/fm_syscall.c:9-12 | a file that reaches level_end2 needs more blocks than the bitmap has bits |
| `FileSteps.NoTripleLevel` | src/kernel/file_system/fm_syscall.c:285-319 | pigeonhole: no well-formed file reaches level_end2, so the triple-indirect code never runs |
| `FileSteps.Demand` | src/kernel/file_system/fm_syscall.c:9-16 | the closed formula for the blocks, index blocks included, that a file of a given size occupies |
| `FileSteps.TreeOnDisk` | src/kernel/file_system/fm_syscall.c:221-281 | chasing pointers on disk finds exactly the tree and the bytes that the write phases maintain |
| `FileManager.Store.ReleaseBlock` | src/kernel/file_system/fm_syscall.c:544-645 | exactly the bits of the released set are cleared, for every offset, with the direct-range branch as it stands; that branch leaves the bitmap exactly when the stale index[12] names no block |
| `FileRelease.TruncationExact` | src/kernel/file_system/fm_syscall.c:544-602 | for every well-formed file and every offset: release_block stays inside the bitmap and leaves a well-formed file if and only if the cut is clean, that is, the offset is past the direct range or at the end, or the stale index[12] happens to be right |
| `FileManager.Store.Truncate` | src/kernel/file_system/fm_syscall.c:342-345 | the same of the code: release_block and the new size |
| `FileRelease.SparedCut` | src/kernel/file_system/fm_syscall.c:544-551 | a cut that is not clean, but frees none of the blocks that stay, leaves a file that is sound in itself |
| `FileRelease.KeepExact` | src/kernel/file_system/fm_syscall.c:544-551 | after such a cut the marked blocks of everybody else are as before if and only if it was clean |
| `FileRelease.CleanKeeps` | src/kernel/file_system/fm_syscall.c:544-551 | a clean cut stays inside the bitmap, frees none of the blocks that stay, and none of anybody else |
| `FileManager.StaleIndexExample` | src/kernel/file_system/fm_syscall.c:546-549 | a file of one byte with a zero in index[12], cut at 0: the code leaves the bitmap |
| `FileRelease.DirectCutLeaks` | src/kernel/file_system/fm_syscall.c:545-552 | cutting a file with an indirect part inside its direct range always leaks data block 12 |
| `FileManager.DirectTruncationExample` | src/kernel/file_system/fm_syscall.c:545-552 | one byte past the direct blocks, cut at 0: the file is no longer well-formed |
| `FileRelease.Conserved` | src/kernel/file_system/fm_backstage.c:68-82 | blocks free, blocks of the file and blocks of others always add up to the whole disk |
| `FileManager.Store.FmWrite` | src/kernel/file_system/fm_syscall.c:340-349 | contents c become c[..off] ++ buf; beyond the end, the file holds as many bytes as c and buf have together, from the front of c ++ what its last block held ++ buf; it is well-formed with everybody else's blocks as they were if and only if the cut was clean and its new size and the end of the bytes written need the same blocks; nobody else's block that is still theirs changes; the open file's offset is the new size |
| `FileGaps.SameBlocks` | src/kernel/file_system/fm_syscall.c:9-16 | two sizes need the same blocks, index blocks included, if and only if they need as many data blocks |
| `FileGaps.TailRoom` | src/kernel/file_system/fm_syscall.c:364-369 | a file is as well-formed at any size up to the end of its last block |
| `FileGaps.GapExact` | src/kernel/file_system/fm_syscall.c:340-349 | after n bytes at an offset beyond the size, the file is well-formed if and only if size + n and offset + n need the same blocks |
| `FileManager.GapExample` | src/kernel/file_system/fm_syscall.c:364-381 | a file of one byte and two bytes written at offset 255: three bytes long, and no longer well-formed |
| `FileGaps.PastBreaks` | src/kernel/file_system/fm_syscall.c:364-381 | after a write from a block border past the last block the file is not well-formed, unless the first pointer behind that block happened to name a free block |
| `FileManager.Store.WritePast` | src/kernel/file_system/fm_syscall.c:364-381 | the code does that, for every such offset and buffer in the direct range, and changes nobody else's block |
| `FileManager.PastExample` | src/kernel/file_system/fm_syscall.c:364-381 | an empty file with a zero in index[0] and a byte written at offset 256: no longer well-formed |
| `InodeTable.InodeRoundTrip` | src/kernel/file_system/fm_backstage.c:122-130 | an inode stored and loaded again is the same, with its type, device and link count |
| `InodeTable.WriteExact` | src/kernel/file_system/fm_backstage.c:127-130 | storing an inode changes that inode only: no other one, no bitmap, no block |
| `InodeTable.TablesAt` | include/fm.h:41-47 | each inode's words lie at fixed offsets of its 76 bytes: size at 0, type, device and link at 4, the pointers from 16 on |
| `InodeTable.DirMetaMeans` | src/kernel/file_system/fm_syscall.c:880-883 | a new inode is stored with type word 1 and link word 1, read from the disk |
| `FileSystem.OtherFile` | src/kernel/file_system/fm_syscall.c:323-358 | a write leaves every other file's blocks, bytes and well-formedness alone |
| `FileSystem.RewriteStep` | src/kernel/file_system/fm_syscall.c:323-358 | whatever a write leaves in a file, the whole disk stays consistent and exactly one abstract file changes |
| `FileSystem.WriteStep` | src/kernel/file_system/fm_syscall.c:323-358 | a write within the file is the abstract write, as meant |
| `FileSystem.ChangeStep` | src/kernel/file_system/fm_syscall.c:323-358 | a write, also beyond the end, or a new file keeps the whole disk consistent and is the abstract change |
| `FileSystem.RunRefines` | src/kernel/file_system/fm_syscall.c:323-358 | over every run of writes to any files, beyond their end or not, and of new files, the disk refines a map from file numbers to byte sequences |
| `FileSystem.WriteFile` | src/kernel/file_system/fm_syscall.c:323-358 | fm_write on a consistent disk is one abstract change; beyond the end this asks for the condition of GapExact |
| `FileSystem.ReadFile` | src/kernel/file_system/fm_syscall.c:221-281 | read_data on a consistent disk delivers a slice of the abstract file |
| `DirEntries.EntryRoundTrip` | src/kernel/file_system/fm_syscall.c:911-913 | an entry built over any garbage is found by its own name and no other, and gives back its inode number |
| `DirEntries.LookupAdded` | src/kernel/file_system/fm_syscall.c:739-763 | after an append, names found before are found as before, and the new name is found if it was not there |
| `DirEntries.ResolveKept` | src/kernel/file_system/fm_syscall.c:739-763 | when files only grow, every path that resolved resolves to the same inode |
| `DirEntries.MakeOneMeans` | src/kernel/file_system/fm_syscall.c:877-893 | a new directory is found under its name, and its "." and ".." lead to itself and to its parent, whatever garbage each of the three entries was built over |
| `DirEntries.MakesPath` | src/kernel/file_system/fm_syscall.c:860-906 | after _create_dir the names lead one by one to the directory returned, every directory made is linked both ways, and everything that was there still resolves |
| `Directories.ScanBuffer` | src/kernel/file_system/fm_syscall.c:748-759 | the inner loop finds the first match in the buffer, or skips exactly the buffer's entries |
| `FileSystem.OnlyBlocks` | src/kernel/file_system/fm_backstage.c:127-130 | whatever changes below the blocks, no file loses a byte or its consistency |
| `FileSystem.NewFile` | src/kernel/file_system/fm_syscall.c:877-882 | an empty file with garbage pointers keeps the disk consistent |
| `Directories.Catalog.GetFreeDiskInode` | src/kernel/file_system/fm_backstage.c:84-91 | an unused inode is marked and returned |
| `Directories.Catalog.ReadInode` | src/kernel/file_system/fm_backstage.c:122-125 | the inode at its place in the ramdisk, with the size, the twelve bytes of type, device and link, and the pointers found at their offsets |
| `Directories.Catalog.WriteInode` | src/kernel/file_system/fm_backstage.c:127-130 | stores size, type, device, link and pointers there, each at its offset, and changes no other inode, no bitmap and no block |
| `Directories.Catalog.NewInode` | src/kernel/file_system/fm_syscall.c:877-882 | an unused number, and an empty file stored under it whose pointers are the garbage of a local variable, with type DIR and link 1 on the disk and no other inode touched |
| `Directories.Catalog.ReadEntries` | src/kernel/file_system/fm_syscall.c:745-761 | one read of seven entries and the search in it: a match, or the end, or all entries up to there skipped |
| `Directories.Catalog.ReadDirEntry` | src/kernel/file_system/fm_syscall.c:739-763 | reading seven entries at a time is the lookup in the directory's bytes, for a directory of any size |
| `Directories.Catalog.AddInodeIntoDir` | src/kernel/file_system/fm_syscall.c:908-916 | one entry is appended to one directory of any size, the whole disk stays consistent, index[14] is untouched, and exactly the blocks that the longer directory needs more are taken; no inode's type, device or link changes |
| `Directories.Catalog.CreateDir` | src/kernel/file_system/fm_syscall.c:860-906 | the whole walk is the abstract one, for every path whose components met on the way are directories, on any disk that has the blocks and inodes for the missing ones; the path then leads to the directory returned, and no file loses a byte; every inode it makes is a directory with link 1 on the disk, and every other inode keeps its type, device and link |
| `Directories.ComponentsCut` | src/kernel/file_system/fm_syscall.c:865-875 | the components are the path cut at every one of its slashes |
| `Directories.OneDirIsRun` | src/kernel/file_system/fm_syscall.c:877-893 | making one directory is a new file and three writes |
| `Directories.MakesIsRun` | src/kernel/file_system/fm_syscall.c:860-906 | _create_dir is a run of new files and writes, so what holds over such runs holds with it |
| `Ring.ListInit` | include/adt/list.h:46-50 | makes the empty ring |
| `Ring.ListEmpty` | include/adt/list.h:52-56 | tells whether the ring's sequence is empty |
| `Ring.ListAddBefore` | include/adt/list.h:23-27 | at the head: appends to the ring's sequence |
| `Ring.ListInsert` | include/adt/list.h:23-27 | in front of the i-th element: inserts there |
| `Ring.ListAddAfter` | include/adt/list.h:29-33 | at the head: prepends to the ring's sequence |
| `Ring.ListDel` | include/adt/list.h:35-44 | removes exactly the element and trips no assertion |
| `Ring.ListFind` | include/adt/list.h:58-59 | list_foreach visits the ring in order and stops at the target, if it is there |
| `ProcessRings.Rings.constructor` | src/kernel/process/util.c:151-163 | links three rings, with every PCB in the free ring in order |
| `ProcessRings.Rings.Schedule` | src/kernel/process/schedule.c:7-17 | following the links from pre_current, over the head if need be, is the schedule step |
| `ProcessRings.Rings.Park` | src/kernel/process/sleep.c:3-11 | the current node moves to the end of the wait ring, and pre_current to its predecessor |
| `ProcessRings.Rings.Wakeup` | src/kernel/process/sleep.c:13-24 | the search of the wait ring and the move in front of the current node are the wakeup step, for any process |
| `ProcessRings.Rings.Create` | src/kernel/process/util.c:34-60 | the first free PCB goes to the end of the wait ring |
| `ProcessRings.Rings.Reserve` | src/kernel/manager_server/pcb_manager.c:64-68 | the first free PCB leaves the rings |
| `ProcessRings.Rings.Admit` | src/kernel/manager_server/pcb_manager.c:135-136 | a PCB in no ring goes to the end of the wait ring |
| `ProcessRings.Rings.Retire` | src/kernel/process/util.c:17-25 | the current node moves to the end of the free ring, and pre_current to its predecessor |
| `ProcessRings.Rings.Remove` | src/kernel/manager_server/pcb_manager.c:271-275 | a node moves from the ready or the wait ring to the end of the free ring |
| `Scheduler.StepKeepsEveryone` | src/kernel/process/sleep.c:3-24 | sleep, wakeup, creation in one or two steps, exit and return lose and duplicate no process |
| `Scheduler.StepKeepsInv` | src/kernel/process/schedule.c:7-17 | ready, wait and free rings and the PCBs about to be started stay disjoint, and the running process is ready |
| `Scheduler.RunKeepsInv` | src/kernel/process/sleep.c:3-24 | the same over every run; a sleeping process is never the running one |
| `Scheduler.CallStep` | src/kernel/process/schedule.c:7-17 | each schedule() brings a waiting process one place nearer, also when the caller goes to sleep |
| `Scheduler.QuietStep` | src/kernel/process/sleep.c:13-24 | wakeups, creations and exits of others never push a waiting process back |
| `Scheduler.BoundedWaiting` | src/kernel/process/schedule.c:7-17 | whatever happens in between, a ready process d places from its turn has run by the d-th schedule() |
| `Mailbox.SendKeepsInv` | src/kernel/process/message.c:17-34 | any_sem and every pid_sem stay equal to the queued counts minus the ticket held or awaited |
| `Mailbox.SendWakes` | src/kernel/process/semaphore.c:20-30 | V's assertion holds, and the owner is woken, once, exactly when it sleeps waiting for such a message |
| `Mailbox.AskKeepsInv` | src/kernel/process/semaphore.c:8-16 | the first P of receive(src) waits for src, or for anybody when src is ANY, and sleeps exactly when no message from there is queued |
| `Mailbox.TicketMeansMessage` | src/kernel/process/message.c:48-57 | with the ticket granted the queue is not empty and the scan finds a message from the sender asked for |
| `Mailbox.TakeKeepsInv` | src/kernel/process/message.c:36-64 | the second P never sleeps; the message taken is the oldest of all, or the oldest from the sender asked for |
| `Mailbox.ChoiceIsOldest` | src/kernel/process/message.c:40-57 | with the ticket for src granted, the message chosen is the oldest queued from src; for ANY, the oldest of all |
| `MessageRings.Slots.InitMsg` | src/kernel/process/message.c:3-14 | whatever was linked before, the hundred slots are in the free ring and the queue is empty |
| `MessageRings.Slots.Put` | src/kernel/process/message.c:20-25 | the first free slot holds the message at the end of the queue; the two rings still share out the hundred slots |
| `MessageRings.Slots.Scan` | src/kernel/process/message.c:48-54 | list_foreach stops at the first message from the sender, or at the last one of all |
| `MessageRings.Slots.Take` | src/kernel/process/message.c:57-62 | the slot is unlinked, its message delivered, and it goes to the end of the free ring |
| `Kernel.StepKeepsInv` | src/kernel/process/message.c:3-64 | every event, creation, exec and exit included, keeps semaphores, queues, phases, rings and histories in step, for all processes at once; a process blocked in receive is in the wait ring or out of service |
| `Kernel.Whereabouts` | src/kernel/process/sleep.c:3-24 | after every event each process is in the ring it should be in: a send readies the receiver that it wakes, a receive with nothing to take parks its caller, wakeup and exec ready a waiting process, exit and return free theirs, nobody else moves; and another process runs only after a tick, a return or such a receive |
| `Kernel.InitInv` | src/kernel/process/message.c:3-14 | start-up establishes the invariant |
| `Kernel.MessagesConserved` | src/kernel/process/message.c:3-64 | over every run with no full mailbox at a send, whatever processes come and go: since its last init_msg, per sender and receiver, sent = received ++ queued in order; of all messages ever sent to it none is doubled and only those init_msg dropped are lost; free and queued slots make MSG_NUM |
| `Kernel.LossExact` | src/kernel/process/message.c:3-14 | an event loses messages of a process if and only if it initialises that process's mailbox while the queue is not empty, and then exactly those queued |
| `Kernel.ReinitExact` | src/kernel/process/message.c:3-14 | the in-order history reaches back over an init_msg if and only if the queue was empty |
| `Kernel.ExecDrops` | src/kernel/manager_server/pcb_manager.c:248-250 | a message sent to a process before its exec ends is lost |
| `Kernel.RunsInTime` | src/kernel/process/schedule.c:7-17 | bounded waiting inside the whole kernel for every process that does not exit; meanwhile, unless exec replaces it, only the end of its queue changes |
| `Kernel.Delivery` | src/kernel/process/message.c:36-64 | a receiver asleep in receive is made ready by the first message it asked for, runs in time, and takes exactly that message, whatever other processes come and go |
| `Kernel.ReceiveAtOnce` | src/kernel/process/message.c:36-64 | receive(src) takes a message at once if and only if one from src (any, for ANY) is queued, and then the oldest such; else it stays asking for src |
| `Kernel.ReceiveGets` | src/kernel/process/message.c:36-64 | over every run after a call of receive(src), without its own exec or exit: the next message the caller gets is from src, and the oldest queued from src; for ANY, the oldest of all |
| `Kernel.ResumeGets` | src/kernel/process/message.c:36-64 | the same at the step that ends a receive which slept |
| `Kernel.ReceiveDelivered` | src/kernel/process/message.c:36-64 | a receive(src) that sleeps until a message from src is sent: its caller is made ready, runs in time, and gets exactly that message |
| `KernelMachine.Machine.Sleep` | src/kernel/process/sleep.c:3-11 | is the sleep step, rescheduling included |
| `KernelMachine.Machine.Send` | src/kernel/process/message.c:17-34 | is the kernel event Send |
| `KernelMachine.Machine.Receive` | src/kernel/process/message.c:36-64 | is the kernel event Receive, up to its end or to its first sleep; a message returned is the oldest queued from src, or of all for ANY, and none is returned only if there is no such message |
| `KernelMachine.Machine.Resume` | src/kernel/process/message.c:36-64 | the rest of a receive that slept is the kernel event Resume; the message returned is the oldest queued from the sender that the call had named, or of all for ANY |
| `KernelMachine.Machine.InitMsg` | src/kernel/process/message.c:3-14 | the loops leave an empty mailbox with every slot free |
| `KernelMachine.Machine.CreateKthread` | src/kernel/process/util.c:33-64 | is the kernel event Spawn |
| `KernelMachine.Machine.TakePcb` | src/kernel/manager_server/pcb_manager.c:64-68 | is the kernel event Reserve |
| `KernelMachine.Machine.InitPcb` | src/kernel/manager_server/pcb_manager.c:116-138 | is the kernel event Admit |
| `KernelMachine.Machine.WakeNew` | src/kernel/manager_server/pcb_manager.c:76 | is the kernel event Wake |
| `KernelMachine.Machine.Exec` | src/kernel/manager_server/pcb_manager.c:248-250 | is the kernel event Exec |
| `KernelMachine.Machine.Exit` | src/kernel/manager_server/pcb_manager.c:271-275 | is the kernel event Exit |
| `KernelMachine.Machine.Return` | src/kernel/process/util.c:17-28 | is the kernel event Return |
| `KernelMachine.Machine.Tick` | src/kernel/process/schedule.c:7-17 | is the kernel event Tick |
| `PageManager.Pool.GetIdlePage` | src/kernel/manager_server/memory_manager.c:48-56 | a page that was idle is marked and returned, no other bit changes, and the cyclic search ends |
| `PageManager.Pool.SetPageIdle` | src/kernel/manager_server/memory_manager.c:58-61 | clears the bit of the page at that address |
| `PageManager.Pool.CreateKernelDir` | src/kernel/manager_server/memory_manager.c:221-242 | an empty directory plus four identity-mapped kernel tables, each mapped twice, at 0 without the user bit |
| `PageManager.Pool.CreateStackPage` | src/kernel/manager_server/memory_manager.c:205-219 | ten frames below 0xC0000000 and their table, with entries that user mode may read and write |
| `PageManager.Pool.LoadSegment` | src/kernel/manager_server/memory_manager.c:245-287 | for every segment in user space: the slots of [vaddr, vaddr + memsz) are filled, new frames are zeroed, nobody else's page changes, and the pages lost are exactly those of the later frames and tables that were there before; every frame that was there and is not displaced holds what it held; the entries are open to user mode |
| `SegmentSteps.LossExact` | src/kernel/manager_server/memory_manager.c:273-287 | no page is lost if and only if the segment's pages after the first, and its tables after the first, were not mapped |
| `PageManager.Pool.LoadProgram` | src/kernel/manager_server/memory_manager.c:177-203 | the address space holds the kernel tables, the stack and the segments' pages, all frames but the stack's hold zeros, and nothing of anybody else changes |
| `PageManager.Pool.CopyProcess` | src/kernel/manager_server/memory_manager.c:304-333 | the child's tree has the parent's slots with entries of the same access, and each frame the parent's bytes |
| `PageManager.Pool.HandleChild` | src/kernel/manager_server/memory_manager.c:294-302 | fork: kernel tables plus the copy, from unused pages only |
| `PageManager.Pool.TakebackPage` | src/kernel/manager_server/memory_manager.c:335-360 | exactly the process's pages become idle, whatever they hold |
| `PageManager.Pool.HandleExec` | src/kernel/manager_server/memory_manager.c:363-386 | without the file nothing changes and -1 is returned; otherwise the old pages go back and the new program is laid out, with the returned pages counted in |
| `AddressSpaces.OneOwner` | src/kernel/manager_server/memory_manager.c:48-61 | a page is marked if and only if some live process owns it, and then one process in one role |
| `AddressSpaces.EventKeepsConsistent` | src/kernel/manager_server/memory_manager.c:294-396 | create, fork, exec (either way), exit and stores keep all address spaces sound and disjoint |
| `AddressSpaces.BootConsistent` | src/kernel/manager_server/memory_manager.c:64-70 | the state at start-up, with no page in use, is consistent |
| `AddressSpaces.RunKeepsOwnership` | src/kernel/manager_server/memory_manager.c:177-396 | single ownership in every state of every run |
| `AddressSpaces.RunKeepsAccess` | src/kernel/memory/util.c:17-32 | in every state of every run a user address is present, writable and open to user mode at both levels exactly when it is mapped, and the directory entries of the first 16 MB have the user bit clear |
| `AddressSpaces.LoadedAddresses` | src/kernel/manager_server/memory_manager.c:177-219 | after create or exec the user addresses mapped are those from 0xBFFF6000 to 0xBFFFFFFF and those in a page with a byte of a segment, and no others |
| `AddressSpaces.LoadedZeros` | src/kernel/manager_server/memory_manager.c:249-287 | until its file is read, a loaded program sees zeros outside its stack, whoever had the pages before |
| `AddressSpaces.OthersSeeNothing` | src/kernel/manager_server/memory_manager.c:294-396 | no event changes a byte that another process sees |
| `AddressSpaces.StoreElsewhere` | src/kernel/manager_server/memory_manager.c:304-333 | a store changes one byte of one process |
| `AddressSpaces.RunIsolates` | src/kernel/manager_server/memory_manager.c:294-396 | over whole runs, a process that is not the subject of an event sees the same bytes at the same addresses |
| `AddressSpaces.ForkAgrees` | src/kernel/manager_server/memory_manager.c:294-333 | after fork every user address is mapped in the child iff in the parent, with equal bytes, in frames that no other process has |
| `AddressSpaces.ForkedApart` | src/kernel/manager_server/memory_manager.c:294-333 | whatever happens to the others after a fork, parent and child each keep what the parent had when it forked |
| `AddressSpaces.ForkExitRestores` | src/kernel/manager_server/memory_manager.c:294-360 | fork, any stores, exit of the child: the bitmap is exactly the one from before |
| `AddressSpaces.EntryOverwriteExact` | src/kernel/manager_server/memory_manager.c:273-287 | writing a page-table entry keeps every used page accounted for if and only if the entry was empty |
| `AddressSpaces.TableOverwriteExact` | src/kernel/manager_server/memory_manager.c:276-282 | the same for a new table in a directory entry |
| `AddressSpaces.SegmentExact` | src/kernel/manager_server/memory_manager.c:245-287 | after load_segment some tree accounts for every used page if and only if the later pages and tables were not mapped |
| `AddressSpaces.LoadAny` | src/kernel/manager_server/memory_manager.c:245-287 | load_segment leaves every used page accounted for if and only if the later pages and tables were not mapped, known before the call |
| `AddressSpaces.LoadTwice` | src/kernel/manager_server/memory_manager.c:273-287 | a two-page segment loaded and loaded again: a used page is left that no tree accounts for |
| `AddressSpaces.CreateSpace` | src/kernel/manager_server/memory_manager.c:164-175 | handle_pcb is the event Create |
| `AddressSpaces.ForkSpace` | src/kernel/manager_server/memory_manager.c:294-302 | handle_child is the event Fork |
| `AddressSpaces.ExecSpace` | src/kernel/manager_server/memory_manager.c:363-386 | handle_exec is the event Exec |
| `AddressSpaces.ExitSpace` | src/kernel/manager_server/memory_manager.c:389-396 | handle_exit is the event Exit |
| `Translation.TranslateUser` | src/lib/kcpy.c:63-73 | a user address translates into the process's own frame at the same offset, or nowhere |
| `Translation.TranslateKernel` | src/kernel/manager_server/memory_manager.c:226-241 | the first 16 MB translate to themselves, from 0 and from 0xC0000000 |
| `Translation.UserOpen` | src/kernel/memory/util.c:17-32 | both entries of a user address have present, writable and user set if and only if it is mapped, read from the stored words |
| `Translation.KernelClosed` | src/kernel/manager_server/memory_manager.c:233-235 | directory entries 0 to 3 are present and writable with the user bit clear; their copies at 3 GB are as make_pde makes them, user bit set; entries above those are absent |
| `KernelCopy.ChunkIsStores` | src/lib/kcpy.c:23-30 | one memcpy within a page is that many single stores, each through its own translation |
| `KernelCopy.CopyFromKernel` | src/lib/kcpy.c:15-31 | runs through if and only if all of [dest, dest + len], end included, is mapped, and then is the copy byte by byte |
| `KernelCopy.CopyToKernel` | src/lib/kcpy.c:33-50 | the same in the other direction |
| `KernelCopy.EndExample` | src/lib/kcpy.c:15-31 | a range that ends with the last mapped page is refused, although all its bytes are mapped |
| `KernelCopy.LoadAfterStore` | src/lib/kcpy.c:15-50 | after a copy, loads see the bytes copied there and the old bytes elsewhere |
| `KernelCopy.OutAndBack` | src/lib/kcpy.c:15-50 | copying out and then back is the identity |
| `KernelCopy.CopySeen` | src/lib/kcpy.c:15-31 | among all processes, only the receiver sees the copy, and only there |
| `SectorCache.FetchKeeps` | src/kernel/drivers/ide/cache.c:33-52 | hit or miss, eviction or not, the logical contents stay and the sector is held |
| `SectorCache.WriteThenByte` | src/kernel/drivers/ide/cache.c:61-67 | a write changes one logical byte |
| `SectorCache.WritebackFlushes` | src/kernel/drivers/ide/cache.c:22-31 | after write-back the disk is the logical contents |
| `SectorCache.ReadReturnsLast` | src/kernel/drivers/ide/cache.c:33-67 | over every run, a read returns the last byte written there, or the original one |
| `SectorCache.FlushReachesDisk` | src/kernel/drivers/ide/cache.c:22-67 | after any run and a write-back, the disk has those bytes |
| `SectorCache.InitExact` | src/kernel/drivers/ide/cache.c:14-20 | a second cache_init loses nothing if and only if every slot in use agrees with the disk |
| `SectorCache.InitLoses` | src/kernel/drivers/ide/cache.c:14-20 | one write and a second cache_init: the byte written is gone |
| `SectorCache.Cache.CacheInit` | src/kernel/drivers/ide/cache.c:14-20 | the loop is the re-initialisation of the model |
| `SectorCache.Cache.CacheFetch` | src/kernel/drivers/ide/cache.c:33-52 | the code is the fetch step |
| `SectorCache.Cache.CacheWriteback` | src/kernel/drivers/ide/cache.c:22-31 | the loop is the write-back, and leaves disk = logical contents |
| `SectorCache.Cache.Read` | src/kernel/drivers/ide/cache.c:54-59 | returns the logical byte |
| `SectorCache.Cache.Write` | src/kernel/drivers/ide/cache.c:61-67 | updates the logical byte |
| `TimerQueue.InsertIsStable` | src/kernel/drivers/timer/timer.c:57-78 | an insert changes no other due time and goes behind those due no later, before those due later |
| `TimerQueue.DueSplit` | src/kernel/drivers/timer/timer.c:89-109 | the nodes sent at a tick are exactly those due, and the rest is due later |
| `TimerQueue.RunSendsOnTime` | src/kernel/drivers/timer/timer.c:57-109 | in every run, a tick sends exactly the requests whose n-th tick it is, equal due times in order of arrival |
| `TimerQueue.NodesConserved` | src/kernel/drivers/timer/timer.c:57-109 | waiting, free and lost nodes are always a hundred; each request with sec <= 0 loses one |
| `TimerQueue.FeasibleExactly` | src/kernel/drivers/timer/timer.c:57-67 | a request finds a node if and only if waiting and lost nodes are fewer than a hundred |
| `TimerRings.Timer.InitWaitList` | src/kernel/drivers/timer/timer.c:80-87 | the hundred nodes are in the free ring |
| `TimerRings.Timer.AddTimeEvent` | src/kernel/drivers/timer/timer.c:57-78 | on linked nodes: the walk through the queue and the insertion before the node it stopped at are the model's insertion |
| `TimerRings.Timer.TimeEventProc` | src/kernel/drivers/timer/timer.c:89-109 | on linked nodes: the tick is the tick of the model, and every node sent goes to the end of the free ring |
| `LineDiscipline.TakeShape` | src/kernel/drivers/tty/console.c:137-151 | a read stays within one line and leaves whole lines, so it never passes the end of the ring; it stays within its count exactly when that is not negative |
| `LineDiscipline.TakeExact` | src/kernel/drivers/tty/console.c:137-151 | a read gets the bytes up to its count or up to the end of the line, and leaves the ring behind them, without the terminator if it got there |
| `LineDiscipline.RunConserves` | src/kernel/drivers/tty/console.c:110-246 | over every run, bytes delivered ++ nonzero bytes in the ring = all entered lines, where the lines are those of the editor alone |
| `LineDiscipline.StepAnswers` | src/kernel/drivers/tty/console.c:153-183 | each step answers the request that is due (one made while a line is there, or at Enter the one stacked last) with the front of the first line, and no other; the requests still waiting keep their places |
| `LineDiscipline.RunAnswers` | src/kernel/drivers/tty/console.c:153-183 | over every run the requests made are those answered and those still waiting, each once, and every reply goes to the process of its request |
| `LineDiscipline.TypeThenRubOut` | src/kernel/drivers/tty/console.c:110-134 | typing and rubbing out cancel, wherever the cursor is |
| `LineDiscipline.DeleteExactly` | src/kernel/drivers/tty/console.c:221-225 | the delete key removes the character under the cursor if and only if there is one, or the line is empty |
| `LineDiscipline.TypedText` | src/kernel/drivers/tty/console.c:196-213 | a string typed stands at the cursor, in front of what was behind it |
| `LineDiscipline.HomeAndEnd` | src/kernel/drivers/tty/console.c:226-239 | after Home a string goes in front of the line, after End behind it, wherever the cursor was |
| `LineDiscipline.HomeEnters` | src/kernel/drivers/tty/console.c:215-240 | s, Home, t and Enter enter t ++ s |
| `LineDiscipline.LinesEntered` | src/kernel/drivers/tty/console.c:168-178 | any number of lines typed one after the other are the lines entered: each starts afresh |
| `Console.InsertAt` | src/kernel/drivers/tty/console.c:196-213 | the shift loop inserts at the cursor, and panics exactly when the line is full |
| `Console.RemoveAt` | src/kernel/drivers/tty/console.c:110-119 | the shift loop removes the character before the cursor |
| `Console.GetCooked` | src/kernel/drivers/tty/console.c:137-151 | delivers the front of the first line, and moves f accordingly |
| `Console.Device.AcceptChar` | src/kernel/drivers/tty/console.c:196-213 | is the key event, or the panic |
| `Console.Device.FeedKey` | src/kernel/drivers/tty/console.c:215-240 | the editing keys are the editor's operations |
| `Console.Device.ReadRequest` | src/kernel/drivers/tty/console.c:153-166 | is the read event: answered at once, stacked, or the panic |
| `Console.Device.Cook` | src/kernel/drivers/tty/console.c:168-183 | is the enter event, serving the last reader stacked, or the panic exactly when the ring is too full |
| `Screen.WriteKeeps` | src/kernel/drivers/tty/console.c:185-194 | a character leaves the cursor one cell on, at the start of its row or at the start of the next; its cell has the character as low byte, every other cell stays, and a blank row is added exactly when the cursor needs it |
| `Screen.TextShown` | src/kernel/drivers/tty/console.c:185-194 | a text of one line stands in the cells from the cursor on, character by character, with the cursor behind it and all other cells as they were |
| `Screen.WrittenOn` | src/kernel/drivers/tty/tty.c:42-51 | a text written in two parts shows what the whole shows, so longer texts are shown line by line |
| `Screen.Console.ScrollUp` | src/kernel/drivers/tty/console.c:28-40 | with or without the compaction, the window afterwards is the old one plus a blank row |
| `Screen.Console.WriteChar` | src/kernel/drivers/tty/console.c:42-66 | for every character the window stays the last 24 rows of an unbounded terminal, scr a row multiple with scr + wh <= size, pos inside the window |
| `Screen.Console.WriteText` | src/kernel/drivers/tty/tty.c:42-51 | the same for any text |
| `ShellPath.Compose` | shell/shell.c:81-126 | converting p/q is converting q from where p leads |
| `ShellPath.ConvertGood` | shell/shell.c:81-126 | every result is again a directory to convert from |
| `ShellPath.TrailingSlash` | shell/shell.c:96-125 | a slash behind a path makes no difference |
| `ShellPath.ParseCuts` | shell/shell.c:96-125 | the components are the path cut at every slash but one at its very end |
| `ShellPath.DownAndUp` | shell/shell.c:96-116 | a name leads down, ".." from there back, "." stays, and ".." at the root stays at the root |
| `ShellPath.RoundTrip` | shell/shell.c:81-126 | the string of a canonical directory leads back to it |
| `ShellPath.ReadAsIntended` | shell/shell.c:96-116 | components are read as push, "." and ".." for every prefix if and only if no empty component is met away from the root |
| `ShellPath.StaysCanonical` | shell/shell.c:96-116 | without such components the result is canonical and the intended one |
| `ShellPath.StrayExample` | shell/shell.c:96-116 | "a//.." from the root ends in /a |
| `ShellPath.ShortPathsFit` | shell/shell.c:81-126 | the buffers suffice when both strings, a slash and a terminator fit into 256 bytes |
| `ShellPath.ConvertToFullPath` | shell/shell.c:81-126 | for every path that fits, the buffer ends up with the string of the directory the path leads to |

## Left out

- Hardware and assembly: boot, interrupts and port input/output, descriptor tables, the IDE protocol, scan codes, serial output. The interrupt raised by `sleep()` is a pure reschedule.
- System-call stubs, the HAL registry, getty, banner, open, close, lseek, dup, exit's descriptor clean-up, deletion and rmdir; the PCB manager's fork of kernel stacks and waitpid; sbrk; strlen_user_string.
- FileManager.Store.WriteData: past the file's last block, where lseek can put the offset, WritePast covers writes from a block border inside the direct range; elsewhere the code goes through block pointers that nobody has set, and this is not modelled. Nor is the branch of fm_write that goes to a terminal.
- FileManager.Store.FmWrite: the same; and a cut inside the direct range that frees one of the blocks that stay, or leaves the bitmap, is not followed into the write (FileRelease.TruncationExact says that the file is already broken then).
- FileSystem.WriteFile: only the writes that leave a consistent disk, so clean cuts and, beyond the end, the condition of GapExact.
- FileManager.Store.ReadData: a request past the end of a file that reaches into the double level makes the code fetch index[14], so that entry has to be within the disk.
- The triple-indirect loops as working code: they are proved unreachable, and their bodies are left out.
- Directories.Catalog.ReadDirEntry: the same condition on index[14], for a directory that reaches into the double level and is searched to its end; open files' in-memory inodes are not modelled.
- Directories.Catalog.CreateDir: names of at most 31 characters, because a longer one is copied over the end of the entry.
- _create is not modelled; it uses the same lookups and appends as _create_dir.
- Mailbox.Sem: the block lists of the semaphores are sequences; each holds at most the owner of the mailbox.
- Kernel.MessagesConserved: a send to a full mailbox is excluded, because the code then takes the list head for a message; so is a wakeup from outside V of a process that sleeps inside receive, because callers wake only what they have just created.
- Kernel.Enabled excludes a creation with no free PCB: create_kthread and create_process then take the list head for a PCB, and fork asserts that there is one.
- Kernel events are atomic. That rests on lock(), which leaves interrupts off; wrap and add_time_event are taken as atomic too, although wrap unlocks before `int $0x80` with the current process already in the free ring, and add_time_event takes no lock while time_event_proc runs in the interrupt.
- PageManager.Pool.LoadSegment: the reading of the program file into the pages is not modelled, nor is a segment outside [16 MB, 3 GB).
- AddressSpaces.Store events are single bytes of user memory; dirty and accessed bits are not modelled.
- KernelCopy.CopyFromKernel: the kernel's buffer lies in kernel memory, and regions of a memcpy do not overlap.
- The calendar, jiffies and the conversion of interrupts to seconds in the timer.
- Console.Device.AcceptChar and RemoveChar change the line buffer only; what they do to the screen is not modelled. A zero character from the keyboard is excluded.
