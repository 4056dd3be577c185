# RelizOS in Dafny

A model of the RelizOS-Rust kernel, its five user tasks and its disk formatter, with proofs of what
they are built to guarantee. Functions and lemmas state what the code does and why it is right;
classes carry the state the source updates in place, and each of their methods is proved against
those functions.

| files | subject |
|---|---|
| `Machine`, `Tasks`, `Syscalls` | register frames and trap handlers, the scheduler, the IPC calls |
| `KernelRuns`, `Deliveries`, `Contexts`, `Results` | the kernel invariant; message delivery, context isolation and what the calls return, over whole runs |
| `FiveTasks`, `FiveTaskRuns` | shell, FS server, ATA server, input server and GUI server as programs: deadlock freedom; what the kernel guarantees them outright; boot |
| `Arithmetic`, `Bits`, `Heap` | the free-list allocator, its list threaded through the heap memory |
| `Frames`, `Paging`, `UserAccess`, `Mmu` | the boot frame allocator and the four-level page tables; address translation as the processor does it |
| `ByteQueue`, `Mouse` | the lock-free queue at the level of single accesses, and the mouse stream through it |
| `FsLayout`, `Text`, `FsReader`, `FsServer`, `FsFormat` | the on-disk format and its names, the kernel's reader, the FS server's own reader, the formatter |
| `FrameBuffer`, `Compositor`, `Tiling` | the blit, the dirty rectangle, the window layout |

Three results need a condition that the source does not state, and the model makes it explicit:

* `select_next_task` goes on with a task that has just blocked when nobody else can run
  (kernel/src/task.rs:185-188). `KernelRuns.StepInv` shows that control stays with a runnable task
  if and only if another task is runnable whenever one blocks; `Deliveries.LostWithoutCover` shows
  that without it a message is lost, from every state; `FiveTasks.DeadlockFree` discharges the
  condition for the system that is booted, and `FiveTaskRuns` states delivery and context isolation
  for that system outright.
* A file name longer than 27 bytes is cut when its directory entry is made (shared/src/lib.rs:65-76),
  so the reader finds a new file exactly if its name fits: `FsFormat.RoundTrip` has both directions.
* The FS server copies min(size, room) bytes out of one sector buffer (kernel/src/main.rs:443-444).
  `FsServer.ServerAgreesWithReader` shows that it answers as the kernel's reader does if and only if
  that is at most 512, which a client with room for one block, as the shell is
  (kernel/src/shell.rs:169-175), never exceeds; `FsFormat.LongFileDisagrees` gives a drive on which
  the two part.

Where the source relies on what it is given, the model says so in preconditions: slot numbers and
task ids agree, kernel stacks do not overlap, usable memory regions are disjoint from each other and
from the page tables in use, page-table entries are zero or present, a freed block comes back with
its own layout, no address computation wraps, the boot loader's stride covers the width.

## Model

| member | source | states |
|---|---|---|
| Machine.SyscallSaveRestore | kernel/src/syscall.rs:443-519 | The pops of the syscall handler undo its pushes: the caller gets back every register but the two that the instruction itself overwrites, and no other task's frame is touched |
| Machine.TimerSaveRestore | kernel/src/interrupts.rs:357-403 | The timer handler restores every register it saved and touches no other frame |
| Machine.PokeRax | kernel/src/syscall.rs:74-85 | Writing word 14 of a saved frame changes rax and no other register |
| Tasks.NewUserStarts | kernel/src/task.rs:101-140 | The frame built for a new task enters its entry point in Ring 3, interrupts on, IOPL as asked, on its own aligned stack, and building it disturbs no other frame |
| Tasks.NextTaskIsFirst | kernel/src/task.rs:180-198 | The task chosen is the first runnable one after the current slot, and the current one only if no other can run |
| Tasks.BoundedWaiting | kernel/src/task.rs:180-198 | A task that stays runnable is chosen within seven calls, whatever happens to the others in between |
| Tasks.Scheduler.Spawn | kernel/src/task.rs:160-168 | Succeeds exactly if a slot is free, fills the first such slot, changes nothing else |
| Tasks.Scheduler.SaveCurrentRsp | kernel/src/task.rs:171-177 | Stores the stack pointer with the current task, or with the boot thread if there is none yet |
| Tasks.Scheduler.SelectNextTask | kernel/src/task.rs:180-198 | The loop makes the choice that NextTaskIsFirst characterises |
| Syscalls.FindSender | kernel/src/syscall.rs:117-130 | The first slot blocked sending to the caller that the filter admits; none only if there is none |
| Syscalls.Kernel.SysSend | kernel/src/syscall.rs:47-107 | The handler is the send transition: error, direct rendezvous, or block and switch |
| Syscalls.Kernel.SysRecv | kernel/src/syscall.rs:110-173 | The handler is the receive transition |
| Syscalls.Kernel.SysTryRecv | kernel/src/syscall.rs:176-217 | The handler is the non-blocking receive transition; the caller keeps control |
| Syscalls.Kernel.SysYield | kernel/src/syscall.rs:240-258 | The handler is the yield transition |
| Syscalls.Kernel.HandleSyscall | kernel/src/syscall.rs:221-438 | The dispatcher is the transition that the run-level results are about, and returns the frame to resume |
| Syscalls.Kernel.HandleTimerInterrupt | kernel/src/interrupts.rs:323-351 | The tick handler is the preemption transition |
| KernelRuns.StepInv | kernel/src/syscall.rs:47-217 | Every event keeps the task table, misses no rendezvous and keeps the delivery account; control stays with a runnable task on its own stack if and only if another task is runnable when the event blocks this one |
| KernelRuns.StepTasks | kernel/src/syscall.rs:221-438 | An event changes the state of one task at most: the caller's if it blocks, its partner's if they meet |
| KernelRuns.SyscallUmem | kernel/src/syscall.rs:47-217 | A call writes user memory only at a rendezvous, one message into the receiver's buffer |
| KernelRuns.PendingSender | kernel/src/syscall.rs:52-56 | A message held in a slot carries that slot's own id |
| KernelRuns.TraceInv | kernel/src/syscall.rs:47-217 | The invariant holds at every point of every run in which a blocking task finds another to run |
| KernelRuns.StepCur | kernel/src/task.rs:180-198 | Control passes to the scheduler's choice at a tick, a yield and a call that blocks, and at no other event |
| KernelRuns.WaitsLessThanSeven | kernel/src/task.rs:180-198 | In every run, a runnable task that is kept waiting stays runnable and sees fewer than seven ticks, yields and blocking calls before it gets control |
| Deliveries.StepDelivers | kernel/src/syscall.rs:47-217 | One event delivers at most one message, from a matching sender to the addressed receiver's own buffer, and accepts exactly the valid sends of the caller |
| Deliveries.AcceptedAreSends | kernel/src/syscall.rs:47-107 | Over a run, the messages taken on for a task are its valid sends, in order |
| Deliveries.ExactlyOnceInOrder | kernel/src/syscall.rs:47-217 | At any point of a run, a task's sends are its deliveries in order and then at most one message it still holds; the sender field is true; a task in control holds none, so a send that returned was delivered; no matching pair of tasks is blocked on each other |
| Deliveries.LostWithoutCover | kernel/src/task.rs:184-188 | From every state in which a send blocks and nobody else can run: the sender runs on, and a second send to the same task overwrites the held message; both were accepted, neither delivered |
| Contexts.StepFrames | kernel/src/syscall.rs:72-106 | One event changes another task's saved frame only by the zero that completes that task's own call |
| Contexts.SuspendedFrame | kernel/src/interrupts.rs:323-403 | While a task is not in control its frame stays as it was left, but for that zero |
| Contexts.ResumesExactly | kernel/src/interrupts.rs:323-403 | A task resumes with exactly the registers it lost control with; only rax may differ, by the result of its own call |
| Contexts.FrameBeforeFirstRun | kernel/src/task.rs:115-139 | A task that has not had control yet keeps the frame it was built with, whatever the others do |
| Contexts.FirstSwitchPops | kernel/src/task.rs:115-139 | The first switch to a task pops exactly that frame |
| Contexts.StepSleeps | kernel/src/syscall.rs:89-96 | The running task stops being runnable by its own blocking call and in no other way |
| Results.ZeroMeansDelivered | kernel/src/syscall.rs:47-217 | A send, receive or poll that returns at once returns zero exactly if it delivered a message; otherwise it returns minus one and log, user memory and accepted sends are as before |
| Results.ResultOf | kernel/src/syscall.rs:221-438 | The result of every call that returns at once, by its number, in numbers |
| Results.SendReturns | kernel/src/syscall.rs:47-107 | Over runs, blocked or not: when the sender has control again its result is zero exactly if the destination exists, and then its message is the one more that has been delivered for it; otherwise it is minus one and nothing was sent |
| Results.ReceiveReturns | kernel/src/syscall.rs:110-217 | Over runs: a receive or poll that returns zero has had a delivery to its caller since it was made, into the buffer it gave, from a sender it asked for |
| FiveTasks.SomebodyRuns | kernel/src/main.rs:53-492 | In the wait order input, GUI, shell, FS, ATA, matched requests and replies leave somebody runnable |
| FiveTasks.CallKeepsProtocol | kernel/src/main.rs:231-492 | Every IPC call of the five programs keeps who waits for whom equal to who serves whom |
| FiveTasks.CallCovered | kernel/src/task.rs:185-188 | When one of the five blocks, another of them is runnable |
| FiveTasks.SysStepInv | kernel/src/main.rs:53-492 | Every step of the five-task system keeps the kernel invariant and the protocol |
| FiveTasks.DeadlockFree | kernel/src/main.rs:53-492 | In every state of every run the task in control is runnable: the five never all block |
| FiveTaskRuns.CoveredByItself | kernel/src/main.rs:53-492 | Every run of the five tasks is a kernel run with the events of its steps in order, which passes through each state of the system where it belongs and meets the scheduler's condition by itself |
| FiveTaskRuns.FiveTasksResume | kernel/src/interrupts.rs:323-403 | In every run of the five tasks, with no further condition, a task resumes with exactly its own registers, rax changed at most by its own call |
| FiveTaskRuns.FiveTasksDeliver | kernel/src/syscall.rs:47-217 | In every run of the five tasks, with no further condition, what a program has sent is what was delivered for it, in order, then at most one message still held; senders are true, returned sends were delivered |
| FiveTaskRuns.FiveTasksSendReturns | kernel/src/syscall.rs:47-107 | In every run of the five tasks, with no further condition, a send returns zero exactly after its message has been delivered, and minus one otherwise |
| FiveTaskRuns.SpawnAll | kernel/src/main.rs:629-633 | Tasks spawned one after the other fill the slots from 0 in order, the rest stay empty |
| FiveTaskRuns.CreatedFresh | kernel/src/main.rs:622-626 | Every task keeps the first frame it was given while the others are created |
| FiveTaskRuns.BootInv | kernel/src/task.rs:219-233 | Starting the first of five fresh tasks establishes the invariant |
| FiveTaskRuns.BootStarts | kernel/src/main.rs:622-633 | Creating, spawning and starting the five tasks establishes the invariant, with a frame for each task that enters its program |
| FiveTaskRuns.EveryTaskEnters | kernel/src/main.rs:622-633 | In every run from boot, the first time a task gets control it enters its own program on its own stack, with privilege level 3 in both selectors |
| Bits.AlignUpLeast | kernel/src/allocator.rs:47-49 | For a power of two, the mask expression is the least multiple at or above the address |
| Bits.OrAnd | kernel/src/main.rs:107-108 | Bitwise or and and share out the sum of two words |
| Heap.CutInside | kernel/src/allocator.rs:63-79 | A block cut from a fitting node, and the rest, lie inside it, apart and aligned as asked |
| Heap.FitsIs | kernel/src/allocator.rs:61-66 | A free node is taken to fit exactly if a block of that size and alignment, in multiples of 16 and behind a header, has room in it; it is put at the lowest such address and takes the fewest bytes |
| Heap.AllocExactly | kernel/src/allocator.rs:61-91 | A request fails exactly if no free node has room for it; otherwise the first that has serves it, at the lowest possible address |
| Heap.AllocKeepsInv | kernel/src/allocator.rs:52-92 | Serving a request keeps all free and live extents disjoint and inside the heap |
| Heap.DeallocKeepsInv | kernel/src/allocator.rs:94-109 | So does giving a block back |
| Heap.AllocConserves | kernel/src/allocator.rs:61-91 | First fit; free plus live bytes drop by exactly the front padding and any rest under 32 bytes, and nothing changes on failure |
| Heap.DeallocConserves | kernel/src/allocator.rs:94-109 | Giving a block back conserves bytes exactly |
| Heap.HeapSafety | kernel/src/allocator.rs:51-110 | Over any run: disjoint, inside, aligned, the counter equals the live request sizes, no byte created |
| Heap.RelinkedList | kernel/src/allocator.rs:67-79 | The stores of alloc leave a list in memory of exactly the new free extents, in order |
| Heap.RelinkSparesPayload | kernel/src/allocator.rs:70-79 | They change no byte of any live block |
| Heap.HeapAllocator.Init | kernel/src/allocator.rs:29-44 | The first call makes the heap one free node, later calls change nothing |
| Heap.HeapAllocator.Alloc | kernel/src/allocator.rs:52-92 | The pointer walk through memory takes the first fitting node, returns the aligned pointer and spares every payload; null exactly if no free node has room for the request |
| Heap.HeapAllocator.Dealloc | kernel/src/allocator.rs:94-109 | Pushing the block's node in front keeps the list and every other payload |
| Heap.HeapAllocator.Store | kernel/src/allocator.rs:51-110 | Whatever word an owner writes inside its block leaves the list intact |
| Frames.BootInfoFrameAllocator.AllocateFrame | kernel/src/paging.rs:55-77 | The k-th success is the k-th whole frame of the usable regions; failure means all were issued, and stays |
| Frames.IssuesWholeFrames | kernel/src/paging.rs:61-71 | The frames issued are exactly those that lie wholly inside a usable region |
| Frames.NeverIssuedTwice | kernel/src/paging.rs:55-77 | For disjoint regions no frame is issued twice |
| Paging.EntryParts | kernel/src/paging.rs:132-135 | An entry made from a frame and flags gives both back |
| Paging.PathsArePages | kernel/src/paging.rs:124-127 | Two addresses use the same four indices exactly if they lie in the same page |
| Paging.HangTree | kernel/src/paging.rs:130-136 | Hanging a fresh table keeps the tables a tree and adds only that table |
| Paging.HangWalk | kernel/src/paging.rs:130-136 | And changes no translation |
| Paging.HangRights | kernel/src/paging.rs:130-136 | A fresh table gives no page any right and takes none from the pages that may be mapped under it |
| Paging.LeafWalk | kernel/src/paging.rs:160-163 | Writing a leaf changes the translation of its page and of no other |
| Paging.LeafRights | kernel/src/paging.rs:160-163 | Writing a leaf gives its page the rights of the leaf cut by those of the entries above, and leaves every other page its own |
| Paging.FreshRights | kernel/src/paging.rs:117-169 | Under an unused level 4 entry, or where the upper entries allow everything, a new page gets exactly the rights asked for |
| Paging.NoHugeIs | kernel/src/paging.rs:130-157 | A huge page is on the way to a page exactly if the page is already mapped as part of one |
| Paging.AddressSpace.NextTable | kernel/src/paging.rs:130-137 | Follows or creates one level without changing any translation or right, present or possible; fails only when all frames are issued |
| Paging.AddressSpace.MapPage | kernel/src/paging.rs:117-169 | On success the page walks to the given frame and flags, with the rights of the flags cut only by upper entries that were there before, and all others are as before, rights included; on failure, at any level, every page is as before; the tables stay a tree |
| UserAccess.MarkedWalk | kernel/src/paging.rs:177-230 | Marking preserves every translation, under pages of all three sizes, but for the user flag |
| UserAccess.SameFrame | kernel/src/paging.rs:185-209 | The physical frame and all other flags of a mapped page are unchanged |
| UserAccess.MarkedRights | kernel/src/paging.rs:177-230 | Once every entry reached is open, a mapped page of any size may be used from user mode, and written exactly if it could be before |
| UserAccess.UserMarker.MarkAllUserAccessible | kernel/src/paging.rs:177-230 | Every present entry reached is open and every mapped page may be used from user mode afterwards, with its right to be written as before; words that are not present entries stay, and a second run changes nothing |
| Mmu.WalkIsTranslation | kernel/src/paging.rs:117-230 | From any table reached, the walk over indices and the rights that the results above speak of are what the processor finds, word by word, for every address and all three page sizes |
| Mmu.FromRoot | kernel/src/paging.rs:117-230 | So from the level 4 table |
| Mmu.MappedAccess | kernel/src/paging.rs:117-169 | After a page has been mapped, every address in it leads to the same place in the given frame, writable and usable from user mode as asked and as far as upper entries that were there allow |
| Mmu.SameAccess | kernel/src/paging.rs:117-169 | For every other address the processor finds what it found before |
| Mmu.MarkedAccess | kernel/src/paging.rs:177-230 | After marking, every address that led to memory leads to the same memory, from user mode too, writable exactly if it was |
| ByteQueue.StepRefines | kernel/src/interrupts.rs:39-60 | Under every interleaving each single access is a step of a FIFO queue of at most 255 bytes |
| ByteQueue.GivesUpExactly | kernel/src/interrupts.rs:39-60 | push drops exactly if 255 bytes waited at its load of read_pos; pop finds nothing exactly if none waited at its load of write_pos |
| ByteQueue.WritesAFreeSlot | kernel/src/interrupts.rs:42-46 | The slot being written is none that is still to be read |
| ByteQueue.Conservation | kernel/src/interrupts.rs:39-60 | Over any interleaving, bytes waiting before and accepted are bytes given out and still waiting, in order |
| ByteQueue.PoppedIsPrefix | kernel/src/interrupts.rs:39-60 | From an empty queue, popped bytes are a prefix of accepted ones, at most 255 behind |
| ByteQueue.ByteQueue.Push | kernel/src/interrupts.rs:39-49 | Uninterrupted, the code is the four accesses and appends unless full |
| ByteQueue.ByteQueue.Pop | kernel/src/interrupts.rs:52-60 | Uninterrupted, the code is the four accesses and removes the oldest byte, or finds the queue empty |
| Mouse.DrainSplits | kernel/src/main.rs:90-98 | Where a drain of the byte stream is cut does not matter |
| Mouse.SignExtendIs | kernel/src/main.rs:105-108 | Setting the bits above a byte in 32 bits gives the number 256 below it |
| Mouse.DecodesOne | kernel/src/main.rs:101-117 | Sign flags and widening casts give back the 9-bit movement and the buttons |
| Mouse.DecodeUndoesEncode | kernel/src/main.rs:90-128 | After any bytes with bit 3 clear and cut anywhere, one event per packet, in order, with its movement and buttons |
| Mouse.EventsThroughQueue | kernel/src/main.rs:90-128 | At any instant of any interleaving with the interrupt handler, also inside a packet and after bytes with bit 3 clear, the events decoded so far are those of exactly the packets popped whole, in order, and of all packets once the stream is in and the queue empty |
| Mouse.MouseDecoder.DrainQueue | kernel/src/main.rs:90-128 | The loop empties the queue and sends exactly the events of its bytes |
| Mouse.CursorFollowsMouse | kernel/src/gui/mod.rs:102-115 | From bytes to pixel: the cursor is on the screen, where the movements put it, stopping at the edges |
| FsLayout.LeThenUnLe | shared/src/lib.rs:10-22 | Little-endian numbers come back |
| FsLayout.SuperblockOffsets | shared/src/lib.rs:10-22 | Which bytes of the superblock hold which number |
| FsLayout.InodeOffsets | shared/src/lib.rs:25-35 | Which bytes of an inode hold which field |
| FsLayout.EntryOffsets | shared/src/lib.rs:55-61 | Which bytes of a directory entry hold which field |
| FsLayout.SuperblockCodec | shared/src/lib.rs:10-22 | The 40-byte layout is a bijection, both directions |
| FsLayout.InodeThenBack | shared/src/lib.rs:25-35 | The 64-byte layout loses nothing |
| FsLayout.InodeFromBytes | shared/src/lib.rs:25-35 | Any 64 bytes are the encoding of the inode they decode to |
| FsLayout.EntryCodec | shared/src/lib.rs:55-61 | The 32-byte layout is a bijection, both directions |
| FsLayout.NameFits | shared/src/lib.rs:65-82 | A name comes back from its entry exactly if it has at most 27 bytes |
| FsLayout.NewEntryHolds | shared/src/lib.rs:65-76 | A new entry has the length and the first 27 bytes of its name, and zeros behind it |
| Text.TextIsUtf8 | shared/src/lib.rs:78-82 | The encoding of every Unicode text passes the validity test of names |
| Text.Utf8IsText | shared/src/lib.rs:78-82 | Whatever passes the test is the encoding of a Unicode text |
| FsReader.FirstMatch | kernel/src/relizfs.rs:131-145 | The first live slot with that name; none before it matches |
| FsReader.MountIs | kernel/src/relizfs.rs:14-31 | A drive mounts exactly if sector 2 can be read and starts with the eight magic bytes; it is reported unformatted exactly if they are others, unreadable otherwise |
| FsReader.InodeBytes | kernel/src/relizfs.rs:39-62 | Inode i is the 64 bytes at 64 times i into the table, wherever its sectors are readable |
| FsReader.InodeFails | kernel/src/relizfs.rs:39-62 | Reading an inode fails exactly if its number is not below the count, or its sector of the table cannot be read |
| FsReader.SectorOfPorts | kernel/src/ata.rs:38-64 | A sector number reaches the drive in its low three bytes and half of the highest |
| FsReader.SectorFromStart | kernel/src/relizfs.rs:39-62 | Sectors of the partition are counted from its start |
| FsReader.SearchEndsAt | kernel/src/relizfs.rs:115-149 | A lookup ends at the first allocated block that has the name or cannot be read, and there at the first live slot of that name; it reports the file missing exactly if every block was read and none has it |
| FsReader.FileBytesAt | kernel/src/relizfs.rs:152-178 | A read returns min(size, room) bytes, fewer if a zero block comes first, byte k being byte k mod 512 of direct block k / 512 |
| FsReader.FileBytesOk | kernel/src/relizfs.rs:152-178 | A read succeeds exactly for a regular file whose needed direct blocks can all be read; not-a-file is reported exactly for other types |
| FsReader.RelizFsReader.Init | kernel/src/relizfs.rs:14-31 | Mounts exactly if sector 2 can be read and has the magic number |
| FsReader.RelizFsReader.FindEntryByName | kernel/src/relizfs.rs:115-149 | The nested loops return the first live entry of that name, skip zero blocks and report the first unreadable one |
| FsReader.RelizFsReader.ReadFile | kernel/src/relizfs.rs:152-178 | The copy loop puts exactly those bytes in front and leaves the rest of the buffer; after a failed sector the blocks before it are there |
| FsServer.NameEnd | kernel/src/main.rs:394-399 | The client's name ends at its first zero byte or after 32 bytes |
| FsServer.NoTextNothing | kernel/src/main.rs:400-433 | A name that is empty or not text is not found, whatever the disk holds |
| FsServer.ServeRead | kernel/src/main.rs:389-460 | The server's arm returns what its lookup finds, writes one zero byte after it if there is room, and nothing else |
| FsServer.OneBlockFile | kernel/src/relizfs.rs:152-178 | For a request of at most one block the reader returns the start of the file's first block |
| FsServer.ServerAgreesWithReader | kernel/src/main.rs:389-460 | For every non-empty text name, of any length, and every room, the server answers as the kernel's reader does - the same bytes, or not found - if and only if the copy fits its one-sector buffer; otherwise what it copies is undefined |
| FsServer.OneBlockClient | kernel/src/main.rs:389-460 | A client with room for at most 512 bytes gets what the kernel's reader gives, for files of every size |
| FsFormat.RegionsApart | host-tool/src/main.rs:42-62 | The seven regions written do not overlap and lie in the partition past its two reserved sectors |
| FsFormat.AppliedMeans | host-tool/src/main.rs:64-174 | Writes to disjoint regions: each holds its data at the end and no other byte changes |
| FsFormat.DiskImage.Format | host-tool/src/main.rs:22-174 | The sequence of seeks and writes, on any earlier contents and at any offset, leaves exactly the volume described, the image extended with zeros if it was short |
| FsFormat.FormatDirectory | host-tool/src/main.rs:136-166 | In the new directory "." and ".." are inode 0, the file's name is inode 1 and nothing else is found |
| FsFormat.RoundTrip | host-tool/src/main.rs:42-174 | Format, mount, find, read gives back the contents cut to the room, for exactly the names that fit and are not "." or ".." |
| FsFormat.FormatThenServe | kernel/src/main.rs:389-460 | And so does the FS server |
| FsFormat.LongFileDisagrees | kernel/src/main.rs:434-446 | A drive with a file of two blocks on which the two readers part: asked for 1024 bytes the kernel's reader returns them, the server copies past its buffer |
| FsFormat.BitmapsMatch | host-tool/src/main.rs:75-116 | In the bitmaps that the mounted superblock points to, inode bits are set exactly for inodes 0 and 1, block bits exactly for the blocks those inodes name |
| FsFormat.SuperblockTells | host-tool/src/main.rs:42-62 | The superblock that mounts gives the layout in numbers: inode table, both bitmaps and data sectors follow each other from sector 3 to the end, within the image and within the reach of the block bitmap |
| FsFormat.InodesTell | host-tool/src/main.rs:96-134 | The two inodes that can be read from the new volume, field by field in numbers |
| FsFormat.DataTells | host-tool/src/main.rs:136-174 | The two data sectors of the new volume: three directory entries and then zeros, the contents and then zeros |
| FsFormat.OutsideUnchanged | host-tool/src/main.rs:64-174 | Nothing before the partition's third sector or after its fifteenth changes |
| FrameBuffer.PixelOf | kernel/src/gop.rs:158-168 | A byte belongs to exactly one pixel, found by dividing its offset |
| FrameBuffer.ChannelsOf | kernel/src/gop.rs:164-186 | Which byte of a 32-bit pixel number is written where, for each screen format |
| FrameBuffer.BlitShows | kernel/src/gop.rs:147-193 | After a blit the clipped rectangle shows the source in the screen's format and all other pixels what they did |
| FrameBuffer.BlitBytes | kernel/src/gop.rs:147-193 | In bytes: red, green and blue of a source pixel end up at its place on the screen in the order of the format, or as their mean |
| FrameBuffer.BlitOnly | kernel/src/gop.rs:147-193 | A byte that a blit changes belongs to a pixel in the rectangle and on the screen |
| FrameBuffer.FrameBufferWriter.BlitRect | kernel/src/gop.rs:147-193 | The nested loops leave every byte of the framebuffer as that description says |
| Compositor.GrowCovers | kernel/src/gui/compositor.rs:47-55 | Marking covers the old box and the new rectangle and stays on the screen |
| Compositor.FirstMarkIsExact | kernel/src/gui/compositor.rs:47-55 | From a clean box, exactly the marked rectangle becomes dirty |
| Compositor.RequestFits | kernel/src/syscall.rs:411-424 | Every source index of a dirty blit is in the slice the kernel builds, and the slice in the back buffer |
| Compositor.FlushOutside | kernel/src/gui/compositor.rs:184-217 | Copying the dirty box to the screen changes no pixel outside it |
| Compositor.RunCoherent | kernel/src/gui/compositor.rs:47-217 | Over any run that draws only where it has marked, the screen shows the back buffer outside the dirty box at all times, and everywhere right after a blit |
| Compositor.CoherentFromStart | kernel/src/gui/compositor.rs:29-44 | So it is from a new compositor on, whatever the screen showed before |
| Compositor.CoherentAgain | kernel/src/gui/mod.rs:222-229 | Whatever else has been written to the screen, from the moment the whole screen is marked the same holds again |
| Compositor.Compositor.MarkDirty | kernel/src/gui/compositor.rs:47-55 | Grows the box by the clipped rectangle and touches no pixel |
| Compositor.Compositor.BlitDirty | kernel/src/gui/compositor.rs:184-217 | The code is the blit step of that result: dirty box to the screen, box clean, back buffer unchanged |
| Tiling.StackFits | kernel/src/gui/layout.rs:73-90 | Stacked cells lie in the work area and end fewer pixels above its bottom than there are cells |
| Tiling.TiledWell | kernel/src/gui/layout.rs:50-92 | For any distinct ids: windows inside the work area, pairwise ten pixels apart, clear of the dock; master on the left with the full height and half the width, the others stacked from the top beside it in equal cells, wasting less than a pixel per cell |
| Tiling.RemovedUnique | kernel/src/gui/layout.rs:42-47 | Removing takes out that id and no other |
| Tiling.AlwaysWellTiled | kernel/src/gui/layout.rs:30-92 | After any sequence of windows added and removed the layout is such a one |
| Tiling.LayoutManager.AddWindow | kernel/src/gui/layout.rs:30-39 | Adds a new id last, ignores a known one, and re-tiles |
| Tiling.LayoutManager.RemoveWindow | kernel/src/gui/layout.rs:42-47 | Removes the id if it is there and re-tiles |
| Tiling.LayoutManager.Recalculate | kernel/src/gui/layout.rs:50-92 | The loop places every window where the layout puts it and keeps ids and order |
| Tiling.LayoutManager.GetDockRect | kernel/src/gui/layout.rs:95-101 | The dock is on the screen, ten pixels above the bottom edge, centred to within one pixel |

## Left out

- Syscalls.Kernel.SysSend: requires a destination of at least 1, because the source subtracts 1 from it before any check; the kernel is built with overflow checks (builder/src/main.rs:9-11), so destination 0 stops it and there is no later state to describe.
- Syscalls.Kernel.HandleSyscall: does not model shutdown (it never returns); the calls that only report a number get it as a parameter, and calls 1, 6, 8, 11 and 12 are modelled by their effect on rax only (what they print, draw or copy to the caller is not part of the kernel state here).
- Syscalls.Kernel.SysRecv: user memory maps a buffer address to a whole message, so overlapping buffers are not modelled.
- FiveTasks.DeadlockFree: storing a message and the send call that passes it are one step of a program; commands, keys and disk results are arbitrary choices; a poll of the GUI server may be taken for empty although it was not; keys are forwarded to task 1.
- UserAccess.UserMarker.MarkAllUserAccessible: the four nested loops of the source are one recursive method, one call per table.
- Paging.AddressSpace.MapPage: requires that the page is not already part of a huge page (`Paging.NoHugeIs`), which the source does not check: there it takes a data page for a table; the TLB flush and the uninitialised frame allocator are not modelled.
- Heap.HeapAllocator.Alloc: requires that no address computation wraps, where the source would stop; memory is word-addressed, the payload of a block is the words at its addresses; the lock is not modelled.
- ByteQueue.StepRefines: accesses interleave sequentially consistently; reordering by the hardware is what the acquire and release orders of the source exclude.
- FsReader.RelizFsReader.ReadFile: a sector read may fail for any set of sectors but gives the same answer each time; the partition start is a parameter where the source has the constant 40000; sector numbers that overflow 32 bits wrap, as in a build without overflow checks.
- FsServer.ServeRead: a copy longer than the 512-byte sector buffer is reported as such instead of being carried out.
- FsServer.ServerAgreesWithReader: requires a root directory of one readable block, all the server looks at, and that the first entry of the requested name is for a readable regular file, or that all entries of that name are for inode 0; other entries may be anything.
- FsFormat.RoundTrip: requires the partition to lie below sector 2^28, the reach of the drive's addresses.
- FsFormat.DiskImage.Format: the formatter clears only the first 128 bytes of the inode table, so nothing is claimed of inodes 2 and up; file name and contents are parameters where the source has one fixed file.
- Tiling.AlwaysWellTiled: requires a screen with room for the gaps of that many windows; on a smaller one the subtractions of the source wrap.
- Compositor.RunCoherent: what is drawn is arbitrary, and so is what the text console and the demo write to the screen; drawing, shadows and fonts are not part of this model.
- Mouse.DecodeUndoesEncode: starts at a packet boundary; a decoder that has lost a byte stays out of step until a byte with bit 3 clear comes first.
- Directory listing, keyboard scancodes, shell commands and number formatting: easy members.
- Ring 0 tasks, exception handlers, device programming, reboot and the Nyan Cat demo: no state that the results above depend on.
- Active windows, window toggling and the five-argument form of adding a window, as kernel/src/gui/mod.rs calls them: kernel/src/gui/layout.rs does not define them.
