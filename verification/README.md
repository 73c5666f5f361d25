# Kernel cores of experimental-os

This project models the stateful cores of experimental-os, a small one-processor teaching kernel, and proves what they keep
and promise. `dafny verify dfyconfig.toml` checks all of it. A panic (a failed `ASSERT`, a pop from an empty list) is a
result of its own in the model, never an assumption, unless a comment says that callers see to it.

The modules follow the source's files.

- **Threads and locks.** `Threads` is the value semantics of thread.c and of the timer interrupt; a stretch with interrupts
  off is one function. `Scheduler` is the same code on fields. `Sync` is the machine of sema_down, sema_up, lock_acquire and
  lock_release, split where other threads can come between, over every interleaving; `Locks` is that code on fields.
  `ProcTable`, `WaitExit` and `Processes` are wait, exit and fork on top. `LinkedLists` is list.c on pointers.
- **Queues.** `IoQueue` is the ring buffer and the pipe; `IoQueueProtocol` is sleeping and waking around it, and
  `SharedIoQueue` the code of both on one ring.
- **Memory.** `Bitmap` is bitmap.c on bytes. `Pages` is the page layer on three bitmaps and a page table; `ForkPages` copies
  an address space and tears it down. `Arenas` is what arenas, blocks and free lists mean; `Malloc` is sys_malloc_ and
  sys_free_ on it, and on the bytes they hand out; `HeapRuns` is what a program sees over any run.
- **Files.** `Disk` has sectors, `InodeTable` the packed inode records, `Partition` the mounted partition with who owns which
  block. `Files` is file_write, file_read and sys_lseek; `FileRuns` is any run of them; `Inodes` opens, closes, makes and
  releases inodes; `FileLife` is a file's whole life; `Format` is the first state of a partition.
- **Directories.** `DirEntries` are 24-byte entries, `Directory` is what a list of places means, `Dirs` is dir.c on sectors and
  `FullDirs` what it does when the direct blocks are full. `Tree` walks paths and finds them again, `Searches` is when a search
  finds what a path names, `TreeOps` makes and removes, and `Removals` is what is found after that. `DirTrees` and `TreeOnDisk`
  tie the tree to the disk, and `Paths` is the path parser and the shell's normaliser.

## Model

| member | source | states |
|---|---|---|
| Bitmaps.Bitmap.Scan | lib/kernel/bitmap.c:18-49 | the lowest run of cnt clear bits; -1 exactly when there is none or the only fit is the whole byte-aligned tail behind full bytes |
| Bitmaps.MissedOnlyWholeBytes | lib/kernel/bitmap.c:18-49 | a fit that the scan misses is a whole number of bytes long and ends at the end, so a scan for any other count is exact |
| Bitmaps.Bitmap.Set | lib/kernel/bitmap.c:51-60 | one bit changes and no other |
| Bitmaps.Bitmap.Test | lib/kernel/bitmap.c:12-16 | the bit that was asked for |
| Bitmaps.AllocBit | fs/file.c:44-60 | the lowest clear bit is taken; -1 exactly when all are set |
| LinkedLists.List.InsertBefore | lib/kernel/list.c:11-18 | the element stands before the one named, and the links of all nodes are again mutual |
| LinkedLists.List.Push | lib/kernel/list.c:20-22 | the element is the first |
| LinkedLists.List.Append | lib/kernel/list.c:31-33 | the element is the last |
| LinkedLists.List.Remove | lib/kernel/list.c:35-40 | the element is off the list, the others keep their order, and its own links are as they were |
| LinkedLists.List.Pop | lib/kernel/list.c:47-51 | the first element comes off |
| LinkedLists.List.Empty | lib/kernel/list.c:53-55 | whether nothing is on the list |
| LinkedLists.List.Len | lib/kernel/list.c:57-65 | how many elements are on the list; the walk ends |
| LinkedLists.List.Find | lib/kernel/list.c:80-89 | whether an element is on the list |
| LinkedLists.List.Traversal | lib/kernel/list.c:66-78 | the first element that the function accepts, or null exactly when there is none |
| LinkedLists.Move | lib/kernel/list.c:20-40 | a tag that goes from one list to another leaves both well linked and without a node in common |
| Threads.DoKeeps | thread/thread.c:167-330 | a tick, a yield, a block, a wake-up, a start or an end of any thread never panics, and after it one thread is RUNNING, the ready list has the READY threads once each, idle can be woken and ticks are in 1..priority |
| Threads.UnblockKeeps | thread/thread.c:316-330 | likewise for waking any sleeping thread |
| Threads.StartKeeps | thread/thread.c:167-187 | likewise for a new thread |
| Threads.ExitKeeps | thread/thread.c:231-254 | likewise for the end of the current thread or of another |
| Threads.RunsWithinCalls | thread/thread.c:189-254 | in any run of ticks, yields, blocks, wake-ups, starts and ends of threads, the thread at place k of the ready list runs within k + 1 calls of schedule and one more for each thread that is woken, unless it is ended before |
| Threads.RunsWithinTicks | device/timer.c:34-46 | and within the running thread's ticks plus those of the threads ahead of it and of those that are woken, in timer interrupts |
| Threads.WokenRunsNext | thread/thread.c:316-330 | a woken thread stands in front of all others, and the next call of schedule, whatever it comes from, runs it |
| Threads.NewThreadStandsLast | thread/thread.c:143-187 | a new thread stands last, with its priority as its ticks, and no other thread differs |
| Threads.YieldGoesLast | thread/thread.c:221-229 | the head of the list runs, and the thread that yields stands last with the ticks it has left |
| Threads.BlockLeavesTheCpu | thread/thread.c:305-314 | a thread that blocks is on no list, and the head of the list runs, or idle |
| Threads.SliceLasts | device/timer.c:34-46 | a thread that is left alone runs for exactly as many timer interrupts as it has ticks; the last one puts it at the end of the list with a full slice |
| Threads.EndedIsGone | thread/thread.c:231-254 | a thread that is ended is on no list, and the others keep order, states and ticks |
| Scheduling.Scheduler.Schedule | thread/thread.c:189-209 | the statements on the globals do what the value semantics says, and never pop an empty list |
| Scheduling.Scheduler.Yield | thread/thread.c:221-229 | likewise; who runs then and what the list is |
| Scheduling.Scheduler.Block | thread/thread.c:305-314 | likewise; who runs then and what the list is |
| Scheduling.Scheduler.Start | thread/thread.c:167-187 | likewise; its assertions hold |
| Scheduling.Scheduler.Unblock | thread/thread.c:316-330 | likewise; its assertions hold |
| Scheduling.Scheduler.Exit | thread/thread.c:231-254 | likewise, for the current thread and for another |
| Scheduling.Scheduler.TimerInterrupt | device/timer.c:34-46 | likewise, with ticks of eight bits |
| Sync.RunKeeps | thread/sync.c:17-65 | no interleaving of the lock code makes an assertion fail, and all of the invariant holds after it |
| Sync.UnitsConserved | thread/sync.c:17-42 | over every run, what a semaphore has at the end and what was taken from it are what it had and what was given; counted over the turns of sema_down that a thread comes out of, and the sema_ups |
| Sync.OnePassesOneUnit | thread/sync.c:17-42 | without a sema_up at most one thread gets through, and none when the value is 0 |
| Sync.TurnIsExact | thread/sync.c:17-42 | a turn of sema_down comes out exactly when there is a unit and takes it; otherwise the thread sleeps last in the list; only a sema_up adds one, and wakes the first |
| Sync.NoLostWakeUp | thread/sync.c:17-42 | after any run, a semaphore at 1 with waiters has a woken thread, ready or running, inside its sema_down |
| Sync.MutualExclusion | thread/sync.c:44-65 | after any run at most one thread is inside a lock, holder and repeat count are its own and its nesting depth, and a free lock is as initialised |
| Sync.OneListAtMost | thread/sync.c:17-42 | after any run a thread's tag is in the ready list or in one wait list, or in none, and never twice |
| Sync.AcquireTakesFreeLock | thread/sync.c:44-53 | the whole of lock_acquire on a free lock: the caller holds it once, and nothing else differs |
| Sync.AcquireWaitsForLock | thread/sync.c:44-53 | on a lock of another: the caller sleeps, last in its list |
| Sync.AcquireCountsUp | thread/sync.c:44-53 | on a lock of its own: the count goes up by one, and nothing else differs |
| Sync.ReleaseCountsDown | thread/sync.c:55-65 | the whole of a nested lock_release: the count goes down by one, and nothing else differs |
| Sync.ReleaseFreesLock | thread/sync.c:55-65 | the whole of the last one: the lock is as new, and its first waiter is in front of the ready list |
| Locks.SyncState.SemaDownTurn | thread/sync.c:17-30 | one turn of the loop on fields is one step of the machine: the unit is taken exactly when there is one, or the caller is the last waiter |
| Locks.SyncState.SemaUp | thread/sync.c:32-42 | likewise: the value is 1, and the first waiter is off the list and in front of the ready ones |
| Locks.SyncState.AcquireTest | thread/sync.c:44-53 | likewise; it tells whether the caller holds the lock already |
| Locks.SyncState.AcquireSetHolder | thread/sync.c:44-53 | likewise |
| Locks.SyncState.AcquireSetRepeat | thread/sync.c:44-53 | likewise; the assertion that nobody has counted before holds |
| Locks.SyncState.AcquireAgain | thread/sync.c:44-53 | likewise, when the caller holds the lock |
| Locks.SyncState.ReleaseTest | thread/sync.c:55-65 | likewise; the assertion that the caller holds the lock holds |
| Locks.SyncState.ReleaseOnce | thread/sync.c:55-65 | likewise, for a nested release |
| Locks.SyncState.ReleaseClearHolder | thread/sync.c:55-65 | likewise; the assertion that the count is 1 holds |
| Locks.SyncState.ReleaseClearRepeat | thread/sync.c:55-65 | likewise |
| Locks.SyncState.ReleaseUp | thread/sync.c:55-65 | likewise, for the last statement of lock_release |
| WaitExit.WaitExitProtocol | userprog/wait_exit.c:84-134 | after any run: a parent is there and does not hang; nobody but init sleeps in sys_wait over a hanging child; an exit was delivered at most once, with its status, or its process still holds it |
| WaitExit.DeliveredToTheParent | userprog/wait_exit.c:92-115 | only sys_wait delivers, one exit at a time, and to the process that is the parent then |
| WaitExit.WaitTurnIsExact | userprog/wait_exit.c:92-115 | -1 exactly when there is no child, and a child exactly when one hangs |
| WaitExit.FindChildIsFirst | userprog/wait_exit.c:66-81 | the child that the traversal finds is the first on the list |
| WaitExit.DeliveredIsTheArgument | userprog/wait_exit.c:92-134 | from the start on: every status that sys_wait delivers is between -128 and 127 and the same modulo 256 as the argument with which that very process called sys_exit in the run |
| WaitExit.RunAsks | userprog/wait_exit.c:117-134 | on every run nobody calls sys_exit twice, and every status kept or delivered is its argument in eight bits |
| WaitExit.ExitedWith | userprog/wait_exit.c:117-134 | a process that calls sys_exit(n) is, whatever happens then, delivered with n in eight bits, and with n itself from -128 to 127 |
| WaitExit.ParentRunsNext | userprog/wait_exit.c:128-134 | at the end of sys_exit the process hangs, and a parent that waits is the next to run |
| WaitExit.InitSleepsOverZombieIff | userprog/wait_exit.c:84-134 | an event makes init sleep over a hanging child exactly when it is the start of an exit of a process that has one while init waits |
| WaitExit.NobodySleepsOverZombie | userprog/wait_exit.c:84-134 | in a run without such an exit nobody ever sleeps over a hanging child |
| WaitExit.InitCanSleepOverZombie | userprog/wait_exit.c:117-134 | a run from the start of the system that ends with init asleep over a hanging child |
| Processes.ProcessTable.WaitTurn | userprog/wait_exit.c:92-115 | the traversals of sys_wait on fields do what the protocol says, with the same pid and status |
| Processes.ProcessTable.FindChild | userprog/wait_exit.c:66-81 | the traversal finds the first child, or the first that hangs |
| Processes.ProcessTable.AdoptChildren | userprog/wait_exit.c:84-90 | the traversal makes exactly the children of the caller children of init |
| Processes.ProcessTable.ExitBegins | userprog/wait_exit.c:117-126 | likewise for the first half of sys_exit; the status is the argument in eight bits, and exactly the children get init as their parent |
| Processes.ProcessTable.ExitEnds | userprog/wait_exit.c:128-134 | likewise for the second half; a parent that waits runs next |
| Processes.ProcessTable.Fork | userprog/fork.c:130-148 | likewise for the table side of fork; the child stands last, with the parent's priority |
| IoQueues.IoQueue.Place | device/ioqueue.c:63-78 | a byte goes behind those that are there |
| IoQueues.IoQueue.Take | device/ioqueue.c:45-61 | the oldest byte comes out |
| IoQueues.IoQueue.Length | device/ioqueue.c:80-88 | exactly the number of bytes, which is at most bufsize - 1 |
| IoQueues.IoQueue.Full | device/ioqueue.c:23-26 | true exactly at bufsize - 1 bytes |
| IoQueues.IoQueue.Empty | device/ioqueue.c:28-31 | true exactly without bytes |
| IoQueues.IoQueue.PipeRead | shell/pipe.c:36-51 | the oldest bytes, as many as asked for or as there are, without ever finding the queue empty |
| IoQueues.IoQueue.PipeWrite | shell/pipe.c:53-68 | all data goes in, or the writer sleeps in it; exactly when it sleeps and how much is in by then |
| IoQueueProtocol.RunIsFifo | device/ioqueue.c:45-78 | on every run with one producer and one consumer what came out is the beginning of what went in, and the queue is the rest |
| IoQueueProtocol.RunGives | device/ioqueue.c:45-78 | on every run the bytes that go in are those of the calls of ioq_putchar in their order, less the last one exactly while its call has not returned; and every call of ioq_getchar takes one byte, but for one that has not returned |
| IoQueueProtocol.OutIsPut | device/ioqueue.c:45-78 | from an empty queue on, what came out, what is in the ring and the byte still to be put are together the bytes put |
| IoQueueProtocol.PipeOutIsWritten | shell/pipe.c:36-68 | likewise for a pipe and what was written to it |
| IoQueueProtocol.KeysComeOutInOrder | device/keyboard.c:161-163 | readers of the keyboard get the keys that found room, in the order in which they were pressed |
| IoQueueProtocol.CarefulRunsAreReasonable | device/ioqueue.c:45-78 | on every run in which one side asks before it calls, that side never sleeps and the other sleeps only with reason |
| IoQueueProtocol.PipesNeverGetStuck | shell/pipe.c:36-68 | a reader that asks ioq_length first never sleeps; the writer of a pipe sleeps only over a full queue; both asleep is impossible |
| IoQueueProtocol.KeyboardsNeverGetStuck | device/keyboard.c:161-163 | a handler that asks ioq_full first never sleeps; the reader sleeps only over an empty queue; both asleep is impossible |
| IoQueueProtocol.StuckIffFatal | device/ioqueue.c:33-78 | for callers that do not ask: an event leaves both asleep for good exactly when the other side is recorded as a waiter and this one is about to sleep |
| IoQueueProtocol.StuckRunIff | device/ioqueue.c:33-78 | a run ends with both asleep exactly when its last event is such an event |
| IoQueueProtocol.EveryQueueCanGetStuck | device/ioqueue.c:45-78 | for every capacity a run of plain gets and puts after which both sleep for good |
| IoQueueProtocol.ProducerCanSleepOverRoom | device/ioqueue.c:63-78 | for every capacity a run after which the producer sleeps over a queue that is not full |
| SharedIoQueues.SharedIoQueue.Getchar | device/ioqueue.c:45-61 | ioq_getchar on the ring, its two waiters and its lock is one event of the protocol with room for bufsize - 1 bytes; the assertions of ioq_wait and wakeup hold |
| SharedIoQueues.SharedIoQueue.Putchar | device/ioqueue.c:63-78 | likewise for ioq_putchar: its byte is the last in the ring, or the caller sleeps with it |
| SharedIoQueues.SharedIoQueue.Resume | device/ioqueue.c:33-78 | likewise when a sleeper goes on: the lock is released and the loop tested again, or the lock taken without a test; which byte comes out or goes in then |
| Pages.VaddrGet | kernel/memory.c:46-75 | the first n free bits in a row are set, or there are none that the scan sees |
| Pages.Memory.Palloc | kernel/memory.c:87-95 | a frame that was nobody's, from the pool asked for; none exactly when that pool is full |
| Pages.Memory.Pfree | kernel/memory.c:383-402 | the frame goes back to the pool that its address shows |
| Pages.Memory.MapPage | kernel/memory.c:97-120 | the page is present on a fresh frame, with a page table, and no other entry changes; exactly when there is no frame for the page or for the table |
| Pages.MallocPage | kernel/memory.c:122-142 | n fresh pages in a row on n frames that were nobody's, all pool bits right; the frames left and the tables lacking decide exactly which of the outcomes it has, and what a failure in the middle leaves taken |
| Pages.FailedRequestTakesAll | kernel/memory.c:131-139 | a request that fails and takes all frames and addresses there are |
| Pages.MfreePage | kernel/memory.c:429-460 | exactly these pages, their frames and their bits are free again; the assertions on the addresses hold |
| Pages.FramesApart | kernel/memory.c:97-120 | no two pages or page tables share a frame, and every frame they are on is taken in its pool |
| Pages.MallocThenFree | kernel/memory.c:122-142 | the two undo each other: bitmaps and mappings are as they were, apart from frames for page tables |
| Pages.MemPoolInit | kernel/memory.c:208-268 | the pools that it lays out satisfy everything the page layer needs |
| ForkPages.CopyBody | userprog/fork.c:41-67 | the child maps exactly the pages whose bit is set in the parent's bitmap, with equal contents, on frames that were nobody's; the parent and all others are as they were |
| ForkPages.ReleasePages | userprog/wait_exit.c:7-42 | exactly the frames of this program, page tables included, go back to their pools |
| ForkPages.BitmapThereAndBack | userprog/wait_exit.c:44-46 | the kernel pages of the program's bitmap are all back exactly when the bitmap fills its last page |
| Arenas.LiveApart | kernel/memory.c:280-366 | two allocations have no byte in common |
| Arenas.MaskGivesArena | kernel/memory.c:284-286 | masking any address in a page gives the page |
| Arenas.PopIsSound | kernel/memory.c:358-362 | taking the head of a free list keeps the counts equal to the numbers of listed blocks, and what is taken was no allocation |
| Arenas.PushIsSound | kernel/memory.c:483-485 | likewise for giving a block back |
| Malloc.BlockDescInit | kernel/memory.c:270-278 | the seven sizes and how many blocks of each fit a page |
| Malloc.Carve | kernel/memory.c:335-354 | a page becomes an arena, its blocks are the list in order, none was on it before, and no allocation's bytes change |
| Malloc.RemoveBlocks | kernel/memory.c:486-491 | every block of a free arena is found on the list and taken off, and nothing else is |
| Malloc.SysMalloc | kernel/memory.c:288-366 | memory that was in no allocation, long enough and zeroed, and all allocations keep their places and bytes; from the free blocks and the page layer's supply, exactly when it serves, refuses, panics or runs out of page tables; a refusal leaves the heap as it was and fit to go on |
| Malloc.SysFree | kernel/memory.c:466-496 | one allocation less and the others keep their places and bytes; the arena's pages go back exactly when it was the last one there; the search for a block on its list never fails |
| HeapRuns.Run | kernel/memory.c:288-496 | on every run of allocations, frees, writes and reads, through refusals and behind them, every piece of memory holds what was last written to it, from zeros on; a run of the kernel ends early only at a request for 3840 pages; and when all is given back no arena is left |
| HeapRuns.LoadAfterStore | kernel/memory.c:288-496 | a byte that was stored is loaded again, whatever is asked for, written elsewhere or given back behind it meanwhile |
| HeapRuns.LoadAfterAlloc | kernel/memory.c:318-366 | new memory reads as zero where nothing was stored |
| HeapRuns.PiecesAreConserved | kernel/memory.c:288-496 | what a program holds is what it held, one more for each pointer it got and one less for each it gave back |
| HeapRuns.KernelGrants | kernel/memory.c:288-366 | when exactly a request of the kernel is granted: from its size, the free blocks of the smallest size that is enough, the addresses in a row and the frames |
| Malloc.PagesForFits | kernel/memory.c:311-313 | as many pages as hold the size and the header, and not one more |
| HeapRuns.MemInit | kernel/memory.c:516-522 | the kernel's heap starts ready for such a run |
| HeapRuns.OneByteTooMany | kernel/memory.c:122-123 | a request that is served and one for a byte more that panics |
| Files.FileWrite | fs/file.c:192-354 | the file is what it was and then the buffer, all other files are as they were; exactly when it refuses, runs out of blocks or panics; the assertions on the block list hold otherwise |
| Files.FileRead | fs/file.c:356-444 | the bytes from the position on, as many as asked for or all that are left, and the position behind them; the end of the file exactly when nothing is left and something is wanted; exactly when it panics |
| Files.Lseek | fs/fs.c:427-452 | the position is the target if that is a byte of the file; otherwise -1 and no change |
| FileRuns.Run | fs/file.c:192-444 | on every run of writes, reads and seeks through many descriptors the results are those of plain byte sequences, up to a step that the source cannot take or that finds no free block |
| FileRuns.RunAppends | fs/file.c:192-354 | a file is what it was and then all that was written to it, through whichever descriptor |
| FileRuns.ReadsAreInOrder | fs/file.c:356-444 | in any run in which a descriptor only reads, and the others do anything, its reads give the file in order and without a gap, from where it stood to where it stands |
| FileRuns.ReadsGetAll | fs/file.c:356-444 | if nobody writes that file, below 139 blocks, they give together as much as they ask for together, or all that was left |
| FileRuns.EndMeansAll | fs/file.c:361-367 | the end is reported exactly when all was read before and something is wanted, and the reads have given all then |
| FileRuns.FitsIsExact | fs/file.c:192-444 | the steps that the source cannot take |
| FileRuns.WriteSeekRead | fs/file.c:192-444 | what was written is read back |
| FileRuns.LastBlocksCannotBeRead | fs/file.c:380-386 | a file of 139 blocks or more can be written, but a read that reaches its end panics |
| InodeTable.Locate | fs/inode.c:18-38 | where a record lies, when it is in two sectors, and that it never runs past the table |
| InodeTable.InodeOfRecord | fs/inode.c:41-91 | the 76 bytes of a record read back give the inode |
| InodeTable.InodeOfZeros | fs/inode.c:106-118 | a cleared record reads as an empty inode |
| InodeTable.PatchedSlot | fs/inode.c:41-61 | writing a record back into its sector or two changes no other byte of the disk |
| InodeTable.WrittenSlot | fs/inode.c:41-61 | and every other record reads as before |
| Partitions.Partition.BlockBitmapAlloc | fs/file.c:53-60 | a block on the disk that was nobody's belongs to the one slot it is for; none exactly when all are taken |
| Partitions.Partition.WriteSlot | fs/inode.c:41-61 | exactly the 76 bytes of the record are rewritten, in one sector or two |
| Partitions.Partition.SyncOpen | fs/inode.c:41-61 | the record on the disk is up to date, and no file's data changes |
| Inodes.SyncReadsBack | fs/inode.c:41-91 | what inode_open reads after inode_sync is what was synced, for which numbers that is so and what happens for the others |
| Inodes.InodeOpen | fs/inode.c:63-91 | one more user of the inode as it is now, whether it was in memory or not |
| Inodes.InodeClose | fs/inode.c:93-104 | one user less, and nothing is lost when the last one closes |
| Inodes.InodeRelease | fs/inode.c:120-168 | exactly the inode's own blocks and number are free again, its record is cleared, and nobody else's data changes; all is well exactly when nobody has it open |
| Inodes.ReleaseAndClose | fs/fs.c:662-667 | likewise for an inode that its caller has open and then closes: exactly when nobody else has |
| Inodes.MakeInode | fs/file.c:91-137 | the lowest free number gets an empty inode in memory and on the disk |
| FileLife.CreateWriteUnlink | fs/file.c:82-354 | creating, writing, closing and unlinking a file leaves every bit of both bitmaps, every inode and all data as before; it fails only for want of a number or of blocks |
| FileLife.CreateAndWrite | fs/file.c:82-354 | a new file holds the buffer, on blocks that were nobody's |
| Format.PartitionFormat | fs/fs.c:62-149 | a formatted partition has a root directory and nothing else, and writes nothing outside itself; it meets all that the operations need exactly when it has eight blocks and no bit stands for a sector past the end of the disk, and exactly when no bit stands for one past its own end |
| Format.FormatBlockBitmap | fs/fs.c:101-116 | which bits are set in a new block bitmap |
| Format.LayoutFills | fs/fs.c:62-100 | where the areas of a partition lie, and that the bits are as many as the sectors behind them, less those that the second count of bitmap sectors saves |
| Dirs.SearchDirEntry | fs/dir.c:24-73 | the first entry with that name in the order of all 140 blocks, or none |
| Dirs.SyncDirEntry | fs/dir.c:90-174 | the entry goes to the first free place, a block is allocated exactly when needed, the size counts the entries; fails only without a free block |
| FullDirs.SyncBeyond | fs/dir.c:113-174 | likewise when the direct blocks are full: with two free blocks a new table with a block for the entry, in the place of the table there was; with one, no table; with none, no change; the blocks of the old table stay taken |
| FullDirs.AddBeyond | fs/dir.c:113-174 | with the record written: behind the direct blocks there is the new entry and nothing else |
| FullDirs.FindBeyond | fs/dir.c:24-73 | so a name is found then exactly as in the direct blocks, or it is the new one's |
| FullDirs.SecondLosesFirst | fs/dir.c:113-174 | the second such entry makes the first one not found |
| Dirs.DeleteDirEntry | fs/dir.c:176-268 | the one entry for the inode goes, with its block when it was alone there and that was not the first; the size counts what is left |
| Dirs.DirIsEmpty | fs/dir.c:321-332 | true exactly when there is no entry but the dots, and then dir_remove finds no second block |
| Dirs.ListAll | fs/dir.c:270-319 | after a rewind, dir_read gives every live entry once in the order of places and then NULL |
| Dirs.DirRead | fs/dir.c:270-319 | the live entry that the position counts to, across free places and blocks that are gone |
| Directory.FindIsExact | fs/dir.c:24-73 | in a good directory a name is found exactly when a live entry has it, and it is the only one |
| Directory.FindInsert | fs/dir.c:90-174 | after an insertion the new name is found and every other name as before |
| Directory.FindDelete | fs/dir.c:176-268 | after a deletion the names of that inode are gone and every other is found as before |
| Directory.EmptyIsExact | fs/dir.c:321-324 | the size of two entries means no others |
| DirTrees.LinkEntry | fs/file.c:117-129 | sync_dir_entry and inode_sync on the disk insert the entry into one directory of the tree and change nothing else in it |
| DirTrees.UnlinkFile | fs/fs.c:493-495 | delete_dir_entry and inode_release on the disk take the link out of one directory of the tree, free the inode, and change nothing else |
| TreeOnDisk.NewFileSystem | fs/fs.c:62-149 | a formatted partition has the tree that TreeOps starts from, and all that the operations on it need exactly when it meets what a partition keeps |
| TreeOnDisk.LookIn | fs/fs.c:266-277 | a turn of search_file on the disk finds what the tree has, and leaves the inodes open that were |
| TreeOnDisk.CreateFile | fs/file.c:82-154 | file_create on the disk is WithFile on the tree, with a new empty file; it fails only without a number below 256 or without a block, and then all is as before |
| TreeOnDisk.RemoveFile | fs/fs.c:493-495 | and sys_unlink is WithoutLink |
| TreeOnDisk.CreateAndUnlink | fs/fs.c:295-499 | creating, closing and unlinking a file leaves the tree and the numbers in use as they were |
| TreeOnDisk.MakeDirectory | fs/fs.c:531-605 | sys_mkdir on the disk is WithDir on the tree, with the block of the two dots; exactly when it fails for want of a block, and when that loses one |
| TreeOnDisk.LeaksIsNotValid | fs/fs.c:596-603 | what is left after such a loss does not meet what a partition keeps |
| TreeOnDisk.RemoveDirectory | fs/fs.c:648-673 | sys_rmdir on the disk: exactly when the directory goes and what the tree is then; all is well exactly when nobody else had it open |
| Tree.SearchFile | fs/fs.c:238-293 | it finds what a walk over the names finds, with the directory before; it panics exactly for 512 bytes or more; for a path of slashes only it returns an unset number |
| Tree.WalkFolds | fs/fs.c:238-293 | following "." and ".." through the directories comes to the same place as folding them in the string |
| Tree.LookupWashed | shell/builtin_cmd.c:11-43 | a path to a directory leads there washed as well |
| Tree.GetCwd | fs/fs.c:675-761 | the loop up ends, its result is the path of names from the root, and the assertion on the caller's size fails exactly for a longer path |
| Tree.CollectNames | fs/fs.c:675-749 | the walk up collects the names from the directory to the root |
| Tree.Reverse | fs/fs.c:752-757 | the loop that cuts at the last slash turns them around |
| Tree.CwdLeadsBack | fs/fs.c:722-761 | that path leads back to the directory |
| TreeOps.FileTree.Mkdir | fs/fs.c:501-605 | it succeeds exactly when the names before the last lead to a directory that has no such entry and has a free place, and there is a number and room; exactly when it panics, what the tree is then, that it is a tree whose paths are shorter than 512 bytes, and that the current directory stays |
| TreeOps.FileTree.Create | fs/fs.c:295-345 | likewise for open with O_CREAT, of a path without a slash at its end |
| TreeOps.FileTree.Unlink | fs/fs.c:454-499 | likewise; what goes is what the path names exactly when no file is on the way |
| TreeOps.FileTree.Rmdir | fs/fs.c:648-673 | exactly when it succeeds and when it panics, and what goes; what is left is a tree exactly when the path does not end in "."; the current directory is gone exactly when it was the one found |
| TreeOps.FileTree.Chdir | fs/fs.c:763-778 | exactly when it succeeds and when it panics, and that it goes to a directory that is there |
| TreeOps.FileTree.Getcwd | fs/fs.c:722-761 | in a tree that the calls made, the path of the current directory fits the buffer of 512 bytes and leads back to it |
| TreeOps.WhereToMake | fs/fs.c:501-550 | a search misses the last name only, in the directory where it is to be made, exactly when the names before it lead there and it has no such entry |
| TreeOps.MadeKeepsPaths | fs/fs.c:501-605 | making something takes nothing away: whatever a path led to, it leads to still |
| TreeOps.MakeBelow | fs/fs.c:295-605 | mkdir of "/a" and of "/a/b" and then open of "/a/b/f" with O_CREAT all succeed, and the file is found there |
| TreeOps.MadeIsShort | fs/fs.c:741-751 | the path of a new directory is no longer than the one that it was made with |
| TreeOps.MadeIsFound | fs/fs.c:501-605 | what was made is found under its path |
| TreeOps.SearchStopsAtFile | fs/fs.c:279-282 | behind a file a path may go on as it likes |
| Searches.FileStopsAfter | fs/fs.c:258-284 | a search that ends at a file has been through directories up to there, and the names it used alone lead to that file |
| Searches.StopsEarlyIff | fs/fs.c:279-282 | it ends there before the last name exactly when the path without some of its last names leads to a file |
| Searches.SearchIsExactIff | fs/fs.c:238-293 | a search finds what the whole path names exactly when no file is on the way |
| Removals.UnlinkBehindFile | fs/fs.c:454-499 | "/f/x" after open of "/f" with O_CREAT: unlink succeeds and "/f" is gone |
| Removals.UnlinkedIsGone | fs/fs.c:493-495 | after unlink every path that led to the file is not found, and every other leads where it did |
| Removals.RemovedIsGone | fs/fs.c:648-673 | after rmdir every path through the directory is not found, and every other leads where it did |
| Removals.RmdirOfLongPath | fs/fs.c:247 | rmdir of an empty directory by a path of 512 bytes panics |
| TreeOps.RmdirOfDot | fs/fs.c:648-673 | "/a/." after mkdir of "/a": both succeed and no tree is left |
| TreeOps.RmdirOfCwd | fs/fs.c:648-673 | mkdir, chdir to it and rmdir of it all succeed, and the current directory is not there |
| Paths.PathParse | fs/fs.c:205-218 | the next component between runs of slashes, and where to go on |
| TreeOps.PathDepth | fs/fs.c:220-236 | the number of components of a path that has one |
| Paths.WashPath | shell/builtin_cmd.c:11-43 | splitting on runs of slashes, folding "." and ".." with the root absorbing, and printing |
| Paths.WashedIsClean | shell/builtin_cmd.c:11-43 | a washed path has no empty, "." or ".." component |
| Paths.WashedTwice | shell/builtin_cmd.c:11-43 | washing twice is washing once |
| Paths.WashedIsNoLonger | shell/builtin_cmd.c:11-43 | a washed path is never longer than the path |
| Paths.MakeClearAbsPath | shell/builtin_cmd.c:45-60 | an absolute path is washed and nothing else; any other is washed behind the current directory and a slash |
| Paths.ResolveComposes | shell/builtin_cmd.c:45-60 | going to a and then to b is going to a/b |

## Findings

Where the code does not do what it is for, the model keeps the code and the lemma named says exactly when.

- **bitmap_scan misses a tail.** Eight bits in an empty bitmap of one byte. A scan fails although there is a fit exactly when
  the only fit is the whole byte-aligned tail behind full bytes (`Bitmaps.Bitmap.Scan`, `Bitmaps.WholeBitmapIsMissed`).
- **A queue's lock is held while its waiter sleeps, and nothing is tested again after it.** With plain ioq_getchar and
  ioq_putchar both sides can sleep for good, for every capacity (`IoQueueProtocol.EveryQueueCanGetStuck`), and the producer
  can sleep over a queue with room (`ProducerCanSleepOverRoom`). It happens exactly when a side that is about to sleep finds
  the other one recorded as a waiter (`StuckIffFatal`, `StuckRunIff`). The keyboard asks ioq_full first, and a pipe's reader
  ioq_length, and that is enough (`KeyboardsNeverGetStuck`, `PipesNeverGetStuck`).
- **pipe_write reckons with one byte more than the queue holds.** 64 bytes into an empty pipe: it puts 63 and sleeps. It
  sleeps exactly when the data is at least 64 less the length (`IoQueues.IoQueue.PipeWrite`).
- **Init is not woken by a zombie it adopts.** It comes to sleep over a hanging child exactly when a process exits that has
  one while init waits (`WaitExit.InitSleepsOverZombieIff`); `InitCanSleepOverZombie` is a run from the start.
- **An exit loses a kernel page.** A program's bitmap has 94199 bytes: 23 pages are taken and 22 given back. All are back
  exactly when the bitmap fills its last page (`ForkPages.BitmapThereAndBack`, `UserBitmapIsNotFull`).
- **sys_malloc panics for what it could refuse.** A size below that of the pool that needs 3840 pages or more fails the
  assertion in malloc_page, and exactly those do (`Malloc.SysMalloc`): with 256 MB, 15724532 bytes are served and 15724533
  panic (`HeapRuns.OneByteTooMany`).
- **A request for pages that fails keeps what it took.** When there are fewer frames than pages, all of them have gone to the
  first pages, and all the addresses stay taken (`Pages.MallocPage`). With 15 frames and 16 addresses, one page and then 15
  leave nothing for anyone (`FailedRequestTakesAll`).
- **inode_sync keeps eight bits of the number.** For inode 256 it overwrites the record of inode 0. The record reads back
  exactly when the number is below 256 (`Inodes.SyncReadsBack`).
- **file_write panics at the last byte, and file_read before it.** A write that brings a file to exactly 71680 bytes panics,
  save when it is a first block that cannot be had; a longer one is refused (`Files.FileWrite`). A read panics exactly when
  the block it begins in or the block of the byte behind its last one is 139 or later (`Files.FileRead`, `FileRuns.LastBlocksCannotBeRead`).
- **A write without enough blocks keeps what it took.** It fails exactly when fewer are free than it needs; then all are
  taken, the contents are as they were, and nothing is given back (`Files.FileWrite`).
- **An empty write leaves the position nowhere.** Writing nothing to an empty file sets it to 0xffffffff (`Files.FileWrite`).
- **A new block bitmap has a clear bit for the block past the end.** The loop clears one bit too many. That bit can be handed
  out exactly when the number of bits is no multiple of 4096 and the second count of bitmap sectors is not below the first,
  for example for a partition of 5611 sectors (`Format.PartitionFormat`, `Format.BothHappen`). The block is then the next
  partition's, or past the end of the disk.
- **The second entry beyond the direct blocks of a directory loses the first.** sync_dir_entry never reads the table, so every
  entry from the 253rd place on gets a new one. What was behind the direct blocks is not found any more and its blocks stay
  taken, and with only one free block the table is lost although the call fails. It happens exactly when the direct blocks are
  full and there is a block (`FullDirs.SyncBeyond`, `FindBeyond`, `SecondLosesFirst`).
- **mkdir loses a block when it fails late.** The rollback clears the bit of the inode only. It happens exactly when one block
  is left and the entry in the parent needs another (`TreeOnDisk.MakeDirectory`, `LeaksIsNotValid`).
- **rmdir of a directory that another has open leaves its inode in memory.** Its blocks and its number are free then. What
  is left is well exactly when nobody else has it open (`TreeOnDisk.RemoveDirectory`, `Inodes.ReleaseAndClose`).
- **A path of 512 bytes or more panics**, whatever it names: "/a" with 255 times "/." behind it
  (`Removals.RmdirOfLongPath`). The calls panic exactly then, save open of a path with a slash at its end, which is refused
  before; and unlink and rmdir panic for the root (`Tree.SearchFile`, the operations of `TreeOps.FileTree`).
- **search_file of "//" returns a number that was never set**, and so for every path of two or more slashes and no name
  (`Tree.SearchFile`).
- **A search stops at a regular file.** After open of "/f" with O_CREAT, `unlink("/f/x")` succeeds and removes "/f"
  (`Removals.UnlinkBehindFile`). A search finds what the path names exactly when the path without some of its last names leads to
  no file (`Searches.SearchIsExactIff`, `TreeOps.FileTree.Unlink`).
- **rmdir of a path that ends in "." breaks the tree.** After `mkdir("/a")`, `rmdir("/a/.")` removes the directory and leaves
  its entry. What rmdir leaves is a tree exactly when the last name is not "." (`TreeOps.FileTree.Rmdir`, `RmdirOfDot`).
- **rmdir takes the current directory.** Afterwards getcwd has nowhere to start. The current directory is gone exactly when
  the path leads to it (`TreeOps.FileTree.Rmdir`, `RmdirOfCwd`).

## Left out

- Bitmaps.Bitmap.Scan: the first loop reads one byte past the bitmap before it compares the index; the model compares first.
  Bit numbers are not cut to 32 bits.
- LinkedLists.List.Pop: popping an empty list writes through the tail's null link; the callers never do it, and it is a
  precondition here.
- TreeOps.PathDepth: a path without a name, for which the source tests a buffer that it never set.
- Threads.RunsWithinTicks: tick totals for statistics and the stack magic are not kept; threads that sleep by ticks
  (mtime_sleep) are left out.
- Sync.RunKeeps: a thread that exits is not an event of this machine; no thread exits inside the lock code.
- WaitExit.WaitExitProtocol: pids are taken as unique; the pid pool and its lock are left out. Of release_prog_resource only
  the pages are modelled (`ForkPages`), not the closing of descriptors.
- IoQueueProtocol.RunIsFifo: one producer and one consumer; with more the assertion in ioq_wait can fail.
- IoQueues.IoQueue.PipeWrite: bytes are unsigned, and a pipe's use count is left out.
- Pages.MallocPage: page tables are a map from pages to frames; the self-mapped addresses, and what is in a new page table,
  are left out. When there is no frame for a page table the source goes on; the model stops with no promise.
- ForkPages.CopyBody: the source does not look whether there was a frame; the model stops. The PCB, the kernel stack, the
  descriptors and the arenas that still point to the parent's table are left out.
- Malloc.SysMalloc: the lists are sequences (list.c itself is in LinkedLists); that their links are in the free blocks is kept
  by letting every operation write any value there. Headers of arenas are a table beside the bytes. Pool locks are left out.
- Malloc.SysFree: a pointer that is no allocation is a precondition; the source does not notice.
- HeapRuns.Run: a program makes no request about memory that it does not hold.
- Files.FileWrite: all_blocks is a sequence; the two-sector inode_sync through its 512-byte buffer, bitmap_sync and write_deny
  are left out. The assertion that a first block has a bit other than bit 0 is shown where block 0 is taken (`Files.GrowFirst`).
- FileRuns.Run: descriptors are distinct; the tables of descriptors are left out.
- Inodes.MakeInode: the inode is made before the directory entry is; rolling back is in TreeOnDisk.
- Dirs.SyncDirEntry: a directory without a table and with a free place in or for its direct blocks; FullDirs has the rest,
  but for a directory that has a table and a free direct place.
- Dirs.DeleteDirEntry: within the 12 direct blocks. Beyond them the loop that counts indirect blocks does not advance.
- FileLife.CreateWriteUnlink: without the directory entry; TreeOnDisk has it, without the write in between.
- TreeOnDisk.CreateFile: the entry is written after the inode's record and not before; a new directory's dots are written
  one after the other.
- TreeOnDisk.LookIn: one turn; the loop over the names is Tree.SearchFile, on the tree.
- Tree.GetCwd: MakeClearAbsPath's buffer of 512 bytes, into which the shell puts this path, is not modelled.
- TreeOps.FileTree.Mkdir: numbers of inodes and whether there is room for all else are parameters. Paths have names of at most
  15 characters, and begin with a slash.
- Format.PartitionFormat: a partition of more sectors than the fixed areas have. The super block, the on-disk copies of the
  bitmaps, mounting an existing file system and the scan for partitions are left out.
- Not modelled at all: boot, interrupts and descriptor tables, the disk, keyboard and network drivers beyond what is named,
  the network stack, the hash table, signals, ELF loading, the shell's loop, printf and string helpers. Each is thin, or
  unfinished in the source.
