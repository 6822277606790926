# Verified models of the Yak kernel

Yak is a small Unix-like kernel for the i386. This project models five of its parts in Dafny
and proves what they are for:

* **Copy-on-write fork.** `CopyOnWrite.dfy` holds page frames, page tables, reference counts
  and the invariant that ties them together; `AddressSpace.dfy` holds the code of fork and of
  the write fault as a class over arrays, and the theorem that a machine that shares frames
  cannot be told from one that copies them, over every run of forks and user writes.
* **Scheduler and mutex.** `SchedulerSpec.dfy` describes the queues as sequences and what
  `schedule`, `sleep`, `wakeup`, the timer tick and the enqueueing part of `fork` do to them;
  `Scheduler.dfy` holds the code on doubly linked process structures and proves it against that
  description, over every run. `BoundedWaiting.dfy` bounds how long a process waits.
  `Mutex.dfy` treats `mutex_lock` and `mutex_unlock` as steps interleaved with everything else
  the scheduler can do, and `MutexProgress.dfy` shows that whoever waits can get in.
* **The ext2 block store.** `Ext2Layout.dfy`, `Ext2Alloc.dfy` and `Ext2Free.dfy` describe bitmaps,
  the three redundant counters and pointer trees; `Ext2Volume.dfy` and `Ext2Truncate.dfy` hold the
  code that allocates and frees. `Ext2Tree.dfy` and `Ext2Map.dfy` show that block mapping is a
  finite map, `Ext2File.dfy` that chunked reads and writes are reads and writes of one byte
  array, `Ext2Reclaim.dfy` that truncation frees exactly the tree that mapping built, and
  `Ext2Inode.dfy` that inodes do not overlap.
* **The virtual console.** `Memory.dfy` has `memmove` and `memset`; `EscapeCodes.dfy` the grammar of
  what is written; `Attributes.dfy` the course of the loop of CSI m; `ScreenModel.dfy` and
  `Terminal.dfy` what each control does to the screen, and `Controls.dfy` what that means in rows
  and columns; `VirtualConsole.dfy` the driver's code, and that its incremental redraw shows the
  screen.
* **Open files.** `OpenFiles.dfy` counts descriptor slots over open, dup, dup2, close, fork,
  close-on-exec and exit.

`Bytes.dfy` has bits, little-endian words, and division by repeated subtraction, which keeps
products of unknowns out of most proofs.

Where the source changes state step by step, the model is a class with the same fields, and each
method is proved against a function on values; the lemmas are about those functions. Sizes are
parameters (page-table length, number of processes and priorities, block size, screen size)
except where the code depends on them.

## What the proofs found

The model follows the code where it departs from what its comments or names promise. In each
case one lemma says exactly when the code does what is meant, and another gives an input for
which it does not.

* `ext2_bfree` recovers the bit of a block if and only if the block is no multiple of the group
  size or the first data block is 0 (`Ext2Layout.FreeInvertsAddress`,
  `Ext2Alloc.FreeUndoesAlloc`); otherwise it looks at memory behind the bitmap, and panics if the
  bit there is clear or clears it if it is set (`Ext2Layout.LastBlockOfGroupIsLost`).
* `ext2_balloc` leaves block 0 of the device alone if and only if a block is free or block 0 is
  all zeros (`Ext2Alloc.BlockZeroSpared`); on a full volume of any geometry it destroys it
  (`Ext2Alloc.FullVolumeLosesBlockZero`). It counts sectors all the same.
* Truncating a file without single-indirect blocks ends well if and only if `ext2_bfree` can
  find each of its blocks (`Ext2Reclaim.TruncatesExactly`).
* The single-indirect range treats the pointer block as signed bytes. Lookups never find a block
  there (`Ext2Map.BmapIndirect`), and the block allocated is the one returned if and only if its
  number fits in a signed byte (`Ext2Map.IndirectTruncates`,
  `Ext2Map.IndirectReturnsWrongBlock`).
* The triple-indirect range works for as many blocks as a double-indirect tree has and then
  leaves its pointer block (`Ext2Map.MappedExactly`, `Ext2Map.TripleOverruns`).
* A read that meets a hole reports one byte too many, does not move the offset, and returns
  zeros from there on even where blocks follow: the result is right if and only if there is no
  hole, and for the largest count it looks like an error (`Ext2File.HolesAreMiscounted`,
  `Ext2File.HoleReadReportsTwo`).
* A write adds its length to `i_size`, which is right if and only if it appends
  (`Ext2File.FileWrite`, `Ext2File.SizeIsMeant`).
* fork panics if and only if a frame is free but no more than the parent has page tables, after
  it has taken the last one (`AddressSpace.Machine.ArchFork`). A write to memory that the process
  may write panics if and only if it has to split a shared frame and none is free
  (`AddressSpace.Machine.UserWrite`). A run ends early only at such a step
  (`AddressSpace.Machine.Run`).
* When arch_fork fails, fork leaves a free slot that is in no queue but has the parent's queue
  pointers, so that the test of `adjust_proc_queues` takes it for queued
  (`Scheduler.KernelScheduler.KernelFork`).
* The panic for a corrupt mutex can only be a false alarm (`Mutex.PanicIsFalseAlarm`), and two
  users of a new mutex are enough for it (`Mutex.FalseAlarmFromStart`). A recursive lock is not
  counted (`Mutex.RelockLosesExclusion`), and lets a second process in beside the first
  (`Mutex.RelockLetsSecondIn`, `Mutex.RelockFromStart`).
* CSI m with 38 or 48 looks at the first parameters instead of those that follow. Its loop never
  ends if and only if it reaches an extended colour, and reaches one again from the place to
  which the first sends it (`Attributes.FateIsExact`): ESC [ 0 ; 0 ; 38 m hangs on every screen
  (`Terminal.ColourHangs`). The parameter behind a colour is skipped
  (`Attributes.ParameterIsSkipped`).
* The check for read-only segments is right for every address if and only if the segment ends
  below 2^32 (`AddressSpace.SegmentIs`).
* CSI B, C, E, a and e add their count in 32 bits: they move as far as they should if and only if
  the sum does not wrap to a place before the last row or column (`Controls.AheadIsMeant`);
  ESC [ 4294967295 B moves one row up (`Controls.DownGoesUp`).
* CSI P closes the gap it makes if and only if what the code blanks, and what it should have
  blanked, was blank already (`Terminal.DeletesExactly`, `Terminal.DeletionLosesText`).
* ESC H and CSI r leave the cursor or the scrolling region off the screen under an exact
  condition, and no other sequence does (`Terminal.ApplyValid`, `Terminal.TabLeavesScreen`,
  `Terminal.RegionLeavesScreen`).
* The shadow buffer of a console is never cleared. The first flush shows the screen if and only
  if no character on it stood at its cell in that memory already
  (`VirtualConsole.FirstFlushShows`, `VirtualConsole.StaleShadowHides`).
* `open` looks behind a full descriptor table (`OpenFiles.FindFdStaysInside`,
  `OpenFiles.FullTableOverruns`), and F_DUPFD_CLOEXEC clears the flag it should set, for every
  input (`OpenFiles.DupFdFlag`).

## Model

| member | source | states |
|---|---|---|
| `CopyOnWrite.ForkedWalk` | sys/arch/i386/virtual_mm.c:252-273 | after a fork both processes translate every address as the parent did, the child through the old tables and the parent through fresh ones, none of them writable |
| `CopyOnWrite.ForkedOthers` | sys/arch/i386/virtual_mm.c:252-273 | no third address space is affected by a fork |
| `CopyOnWrite.SharedOwners` | sys/arch/i386/virtual_mm.c:264-268 | a frame gains exactly one owner if the parent maps it, none otherwise, which is how the count is raised |
| `CopyOnWrite.ForkKeepsInv` | sys/arch/i386/virtual_mm.c:227-278 | fork keeps the invariant: counts equal the number of entries, writable entries are private, no user page table is reachable twice |
| `CopyOnWrite.ForkCopies` | sys/arch/i386/virtual_mm.c:222-278 | the child sees the parent's memory and nobody else sees a change |
| `CopyOnWrite.ClaimIsInvisible` | sys/arch/i386/virtual_mm.c:536-538 | making the entry of a private frame writable changes nobody's memory |
| `CopyOnWrite.SplitKeepsInv` | sys/arch/i386/virtual_mm.c:520-535 | splitting a shared frame keeps the invariant |
| `CopyOnWrite.SplitIsInvisible` | sys/arch/i386/virtual_mm.c:520-535 | splitting a shared frame changes nobody's memory |
| `CopyOnWrite.SoleOwner` | sys/arch/i386/virtual_mm.c:520-538 | a count of at most 1 means that the faulting entry is the only one, so the branch is chosen rightly |
| `CopyOnWrite.StoreIsPrivate` | sys/arch/i386/virtual_mm.c:491-544 | a store through a writable entry changes one word of one process |
| `CopyOnWrite.CountBound` | sys/mm/page_alloc.c:18-98 | a frame is never counted more often than there are address spaces |
| `CopyOnWrite.InvIsPossible` | sys/arch/i386/virtual_mm.c:227-297 | a machine of 1024-word frames with a text page and a data page that satisfies the invariant |
| `CopyOnWrite.ViewIsWalk` | sys/arch/i386/virtual_mm.c:499-538 | what a process reads at an address is what the MMU finds by way of directory, table and page |
| `AddressSpace.ToChar` | sys/mm/page_alloc.c:18 | the counter is a signed char: a value from -128 to 127, the same modulo 256 |
| `AddressSpace.CountsFitChar` | sys/mm/page_alloc.c:82-92 | with at most 64 processes no counter wraps, raised or lowered |
| `AddressSpace.AddressIsWalk` | sys/arch/i386/virtual_mm.c:499-510 | the indices that page_set_writable shifts out of a byte address are those of the word written |
| `AddressSpace.SegmentIs` | sys/arch/i386/virtual_mm.c:478-487 | the range check holds for exactly the addresses of a segment exactly if the segment ends below 2^32 |
| `AddressSpace.ReadOnlyIs` | sys/arch/i386/virtual_mm.c:478-487 | refused are exactly the addresses of text and read-only data |
| `AddressSpace.TextIsSafe` | sys/arch/i386/virtual_mm.c:457-489 | in every run a write to a page of text is refused and changes nothing |
| `AddressSpace.TextRun` | sys/arch/i386/virtual_mm.c:457-489 | a process with text at 0x400000: the run that writes there goes one way, the write is refused |
| `AddressSpace.Machine.PageFrameAlloc` | sys/mm/page_alloc.c:24-50 | contract: an unused frame with count 1, or none and nothing changes |
| `AddressSpace.Machine.PgTableCow` | sys/arch/i386/virtual_mm.c:280-297 | every present entry loses write permission, and on request each frame is counted once more for each entry that maps it, in the width of a char |
| `AddressSpace.Machine.MarkChild` | sys/arch/i386/virtual_mm.c:252-257 | the first loop of copy_address_space write-protects the child's directory and the tables it took over |
| `AddressSpace.Machine.SplitParent` | sys/arch/i386/virtual_mm.c:258-273 | the second loop gives the parent fresh tables and raises each count once, exactly if there are enough free frames for them; else it has used them all |
| `AddressSpace.Machine.CopyAddressSpace` | sys/arch/i386/virtual_mm.c:227-278 | the whole of copy_address_space, including the sharing for pid 0; otherwise it panics exactly if the free frames are too few for the parent's tables |
| `AddressSpace.LoopsCopy` | sys/arch/i386/virtual_mm.c:252-273 | what the two loops leave behind is a fork that copies |
| `AddressSpace.Machine.ArchFork` | sys/arch/i386/processes.c:98-110 | fork's memory part: invariant kept, child's view equal to the parent's; no memory, and nothing changed, exactly if no frame is free; panic exactly if some are free, but no more than the parent has tables |
| `AddressSpace.Machine.MakeWritable` | sys/arch/i386/virtual_mm.c:520-538 | split or claim: only the faulting entry becomes writable, and no view changes |
| `AddressSpace.Machine.PageSetWritable` | sys/arch/i386/virtual_mm.c:491-544 | a write fault is resolved; or refused exactly where the address is not mapped, and then nothing changed; or a panic, exactly if it must split a shared frame and none is free; the kernel's part of the directory is an outcome of its own |
| `AddressSpace.Machine.HandlePageFault` | sys/arch/i386/virtual_mm.c:457-489 | write permission is granted only for protection faults by writes outside text and read-only data; the panic happens exactly for such faults that must split with no frame free |
| `AddressSpace.Machine.UserWrite` | sys/arch/i386/virtual_mm.c:457-544 | a user write either happens for this process alone, or is denied for a reason, or panics, exactly if the process may write there and a shared frame must be split with none free |
| `AddressSpace.Machine.Run` | sys/arch/i386/virtual_mm.c:227-544 | over every run of forks and writes there is a trace of states: each process reads what it would read had fork copied; a fork is refused exactly if parent, child, table or free frames do not allow it; a write is refused only outside the process's memory or in read-only segments, and always on wholly read-only pages; refused steps change nothing; the run ends early exactly at a step whose memory runs out halfway, which no step of the trace before does |
| `AddressSpace.TraceCopies` | sys/arch/i386/virtual_mm.c:222-278 | such a trace is a run of a machine whose fork copies all memory |
| `SchedulerSpec.UpdateKeepsRings` | sys/kernel/schedule.c:107-158 | requeueing keeps every queue equal to the runnable processes of its priority, each once |
| `SchedulerSpec.ScheduleChooses` | sys/kernel/schedule.c:54-66 | current heads its ring and no runnable process has higher priority; it is NULL only if nothing is runnable |
| `SchedulerSpec.ScheduleEffect` | sys/kernel/schedule.c:39-66 | schedule changes nothing else of any process |
| `SchedulerSpec.ScheduleMeans` | sys/kernel/schedule.c:39-66 | field by field: an overdue alarm is cleared and leaves SIGALRM pending, an overdue tty deadline is cleared, and who had one or sleeps interruptibly with a signal pending is runnable |
| `SchedulerSpec.ScheduleQueues` | sys/kernel/schedule.c:39-53 | with no tty deadline overdue, those who wake up queue up behind the others, in the order of their slots |
| `SchedulerSpec.ScanOneQueues` | sys/kernel/schedule.c:39-53 | one process of the scan: it goes to the tail of its ring exactly if it wakes up or had an overdue tty deadline |
| `SchedulerSpec.UnlinkedIs` | sys/kernel/schedule.c:120-140 | taking a process out of its ring leaves the others in their circle, its successor first |
| `SchedulerSpec.ScheduleSettles` | sys/kernel/schedule.c:39-53 | afterwards no interruptible sleeper has a signal pending and no deadline is overdue |
| `SchedulerSpec.SleepsUnlessSignalled` | sys/kernel/schedule.c:72-85 | a process that goes to sleep interruptibly stays asleep, and stops being current, exactly if it has no signal pending and no alarm or tty deadline overdue |
| `SchedulerSpec.BlocksMeans` | sys/kernel/schedule.c:72-85 | who blocks takes the state and address it gave and is then scanned like everybody else, and nobody else changes otherwise |
| `SchedulerSpec.SignalsMean` | sys/kernel/signal.c:64-76 | a signal is pending from when it is posted until it is taken, and nothing else changes |
| `SchedulerSpec.SignalWakes` | sys/kernel/schedule.c:49-52 | an interruptible sleeper is runnable after the tick that follows a signal |
| `SchedulerSpec.WakeupKeepsInv` | sys/kernel/schedule.c:87-105 | wakeup keeps the invariant |
| `SchedulerSpec.WakeupMeans` | sys/kernel/schedule.c:87-105 | exactly the processes asleep on the address, interruptibly or not, become runnable and forget the address |
| `SchedulerSpec.WakeupQueues` | sys/kernel/schedule.c:87-105 | they queue up behind those that were there, in the order of their slots |
| `SchedulerSpec.WakeupSwitches` | sys/kernel/schedule.c:102-103 | schedule follows exactly if a switch was asked for and somebody was woken |
| `SchedulerSpec.TickKeepsInv` | sys/drivers/timer.c:45-58 | the timer tick keeps the invariant |
| `SchedulerSpec.TickMeans` | sys/drivers/timer.c:45-58 | the clock advances in 32 bits, the current process pays one tick or becomes runnable, and all are scanned at the new time |
| `SchedulerSpec.ForkKeepsInv` | sys/kernel/proc.c:142-166 | the enqueueing part of fork keeps the invariant |
| `SchedulerSpec.ChildMeans` | sys/kernel/proc.c:142-157 | the child is queued at the parent's priority, or 1 for 0, with counter 10, no alarm, and the parent's pending signals |
| `SchedulerSpec.ForkMeans` | sys/kernel/proc.c:123-168 | fork only scans everybody else, and without a free slot it changes nothing |
| `BoundedWaiting.ChildQueuesLast` | sys/kernel/proc.c:157 | the child queues up behind all that were there, if no tty deadline is overdue |
| `SchedulerSpec.StepKeepsInv` | sys/kernel/schedule.c:28-158 | every entry into the scheduler, every signal posted and every signal taken keeps the invariant |
| `BoundedWaiting.TickShortensWait` | sys/drivers/timer.c:52-57 | each tick brings every waiting process of the top ring one tick closer |
| `BoundedWaiting.BoundedWait` | sys/drivers/timer.c:45-58 | a process of the top ring runs within the ticks of those ahead of it, one more for each |
| `BoundedWaiting.RoundRobin` | sys/drivers/timer.c:52-57 | once the counters are used up, ticks are a strict round robin |
| `BoundedWaiting.WakingIsUndisturbed` | sys/kernel/schedule.c:87-105 | waking processes of the same or lower priority only appends to the top ring |
| `Scheduler.RingAppend` | sys/kernel/schedule.c:152-157 | the four assignments of add_to_queue extend the circle at its tail |
| `Scheduler.RingBypass` | sys/kernel/schedule.c:133-139 | removal leaves a circle that starts at the successor |
| `Scheduler.BypassKeepsLinks` | sys/kernel/schedule.c:132-139 | removal keeps every queue well formed, with NULL links outside all queues |
| `Scheduler.QueuedMeansLinked` | sys/kernel/schedule.c:116-127 | a process is in a queue exactly if both its links are not NULL |
| `Scheduler.KernelScheduler.constructor` | sys/kernel/proc.c:85-109 | processes_init establishes the invariant: process 0 is runnable, current, and alone in queue 0 |
| `Scheduler.KernelScheduler.FindTail` | sys/kernel/schedule.c:152-153 | the walk of add_to_queue ends at the tail |
| `Scheduler.InitialIsOk` | sys/kernel/proc.c:85-109 | that state, field by field |
| `Scheduler.KernelScheduler.AddToQueue` | sys/kernel/schedule.c:142-158 | the process is appended to the queue of its priority |
| `Scheduler.KernelScheduler.RemoveFromQueue` | sys/kernel/schedule.c:120-140 | the process leaves its queue, and its successor becomes the head |
| `Scheduler.KernelScheduler.AdjustProcQueues` | sys/kernel/schedule.c:107-114 | in a queue exactly if runnable or running |
| `Scheduler.KernelScheduler.Schedule` | sys/kernel/schedule.c:28-69 | the code computes the schedule of the specification |
| `Scheduler.KernelScheduler.Sleep` | sys/kernel/schedule.c:72-85 | sleeping blocks the current process, or panics for process 0 |
| `Scheduler.KernelScheduler.Wakeup` | sys/kernel/schedule.c:87-105 | every sleeper on the address becomes runnable |
| `Scheduler.KernelScheduler.TimerIrq` | sys/drivers/timer.c:45-58 | the code computes the tick of the specification |
| `Scheduler.KernelScheduler.KernelFork` | sys/kernel/proc.c:123-168 | the child takes a free slot and the tail of its queue; if arch_fork fails, the slot stays free but keeps the parent's queue pointers |
| `Scheduler.KernelScheduler.TakeSignal` | sys/kernel/signal.c:72-73 | taking a pending signal clears it and touches no queue |
| `Scheduler.KernelScheduler.Run` | sys/kernel/schedule.c:28-158 | over every run the linked queues hold exactly the runnable processes and current heads its queue |
| `Mutex.StepKeepsProtocol` | sys/kernel/mutex.c:20-47 | every step of any process keeps the protocol |
| `Mutex.InitEstablishesProtocol` | sys/kernel/mutex.c:13-18 | a new mutex satisfies the protocol, whatever the scheduler is doing |
| `Mutex.MutualExclusion` | sys/kernel/mutex.c:20-47 | in every interleaving at most one process is inside, and it is the owner, unless an owner has locked again |
| `Mutex.NoLostWakeup` | sys/kernel/mutex.c:28-30 | whenever the mutex is free, every process in the waiting loop is in a run queue |
| `MutexProgress.ChecksMean` | sys/kernel/mutex.c:23-26 | the two reads of the check move only the process that makes them |
| `MutexProgress.FreeMutexIsTaken` | sys/kernel/mutex.c:28-33 | who comes to a free mutex, at once or after waiting, is inside as its owner one step later, and nobody else notices |
| `MutexProgress.TakenMutexIsSleptOn` | sys/kernel/mutex.c:28-30 | who comes to the mutex of another stays out, and sleeps on it exactly if no signal is pending and nothing is overdue; process 0 panics |
| `MutexProgress.UnlockWakes` | sys/kernel/mutex.c:36-42 | after an unlock nobody owns the mutex and nobody sleeps on it |
| `MutexProgress.GetsIn` | sys/kernel/mutex.c:20-47 | from every state with a free mutex, each process that waits has a run at whose end it owns the mutex, whatever the others are doing and whatever their priorities |
| `MutexProgress.WaiterCanGetIn` | sys/kernel/mutex.c:20-47 | in every state in which an owner unlocks, each process that waits, asleep or not, can be the next to get in |
| `Mutex.PanicIsFalseAlarm` | sys/kernel/mutex.c:23-26 | the mutex is never corrupt; the panic happens exactly if another process took it between the two reads |
| `Mutex.FalseAlarmHappens` | sys/kernel/mutex.c:23-27 | a run that ends in that panic |
| `Mutex.FalseAlarmFromStart` | sys/kernel/mutex.c:13-27 | a kernel with two users of a new mutex reaches that panic |
| `Mutex.RelockLosesExclusion` | sys/kernel/mutex.c:28-33 | after a recursive lock one unlock frees the mutex |
| `Mutex.RelockLetsSecondIn` | sys/kernel/mutex.c:20-47 | from any free mutex with two runnable processes at the top: one locks, locks again, unlocks once, and a tick later both are inside |
| `Mutex.RelockFromStart` | sys/kernel/mutex.c:13-47 | a new mutex and two users of it get there |
| `Bytes.WithBitAtBit` | sys/fs/ext2/balloc.c:85-85 | setting or clearing one bit of a bitmap changes that bit only |
| `Bytes.WithWordAtWord` | sys/fs/ext2/bmap.c:91-93 | storing a pointer changes one word of a block only |
| `Bytes.BitAtIsBinary` | sys/fs/ext2/balloc.c:78-85 | bit k of a bitmap is binary digit k % 8 of byte k / 8 |
| `Bytes.WordBytes` | sys/fs/ext2/bmap.c:76-77 | a pointer is four bytes, the least significant first |
| `Ext2Layout.FreeInvertsAddress` | sys/fs/ext2/balloc.c:121-128 | the inverse of the address formula is right if and only if the block is not lost |
| `Ext2Layout.LastBlockOfGroupIsLost` | sys/fs/ext2/balloc.c:121-128 | a block for which it is wrong |
| `Ext2Layout.RecordedOk` | sys/fs/ext2/balloc.c:85-98 | setting or clearing a bit together with its counters keeps group counts equal to clear bits and the total equal to their sum |
| `Ext2Alloc.SomeGroup` | sys/fs/ext2/balloc.c:33-46 | if the superblock counts a free block, the search over the groups finds one |
| `Ext2Alloc.AllocEffect` | sys/fs/ext2/balloc.c:20-57 | allocation succeeds exactly if the total is not 0; the block was free, is no bitmap, is cleared, and is the only one marked |
| `Ext2Alloc.AllocChoice` | sys/fs/ext2/balloc.c:27-97 | it is the block of the lowest clear bit of the inode's own group if that has one, else of the lowest group that has one |
| `Ext2Alloc.BlockZeroSpared` | sys/fs/ext2/balloc.c:32-57 | block 0 is left alone exactly if a block is free or block 0 is zero |
| `Ext2Alloc.FullVolumeLosesBlockZero` | sys/fs/ext2/balloc.c:32-57 | for every geometry, a full volume whose block 0 is destroyed |
| `Ext2Alloc.FreeUndoesAlloc` | sys/fs/ext2/balloc.c:20-139 | freeing what was allocated restores bitmaps and counters exactly if the block is not lost |
| `Ext2Alloc.AfterOps` | sys/fs/ext2/balloc.c:20-139 | any sequence of allocations and frees keeps every group count and the total equal to the clear bits |
| `Ext2Alloc.OpsConserve` | sys/fs/ext2/balloc.c:20-139 | whoever frees only what was allocated never meets the panic; no block is handed out twice, and free and held blocks together stay as many |
| `Ext2Volume.ScanBitmap` | sys/fs/ext2/balloc.c:78-84 | the scan stops at the lowest clear bit |
| `Ext2Volume.BallocBgd` | sys/fs/ext2/balloc.c:64-103 | the lowest clear bit of the group is taken and counted, or nothing happens |
| `Ext2Volume.Balloc` | sys/fs/ext2/balloc.c:20-57 | own group first, then the others; block and sector count of the inode |
| `Ext2Free.FreeSeqExact` | sys/fs/ext2/balloc.c:109-139 | freeing a list works exactly if all blocks are marked and distinct, and then clears exactly their bits |
| `Ext2Free.FreeSeqKeepsVolOk` | sys/fs/ext2/balloc.c:129-136 | freeing data blocks keeps the accounts |
| `Ext2Truncate.Bfree` | sys/fs/ext2/balloc.c:109-139 | one free, with its panic and its way out of bounds |
| `Ext2Truncate.BfreeIndirect` | sys/fs/ext2/balloc.c:141-156 | frees the blocks of an indirect tree, children first |
| `Ext2Truncate.BfreeDindirect` | sys/fs/ext2/balloc.c:158-173 | frees the blocks of a double-indirect tree |
| `Ext2Truncate.BfreeTindirect` | sys/fs/ext2/balloc.c:175-190 | frees the blocks of a triple-indirect tree |
| `Ext2Truncate.TreeBlocksAre` | sys/fs/ext2/balloc.c:141-190 | a tree's blocks are its root and those of the trees that its words name |
| `Ext2Truncate.FileBlocksAre` | sys/fs/ext2/inode.c:136-155 | a file's blocks are those of its first twelve pointers and of the trees of one, two and three levels in slots 12, 13 and 14 |
| `Ext2Truncate.Itrunc` | sys/fs/ext2/inode.c:136-155 | ends without panic exactly if the file's blocks are marked and distinct; clears exactly their bits, raises the total by their number, leaves 15 zero pointers |
| `Ext2Reclaim.TruncatesExactly` | sys/fs/ext2/inode.c:136-155 | for a file without single-indirect blocks that condition holds exactly if none of its blocks is lost |
| `Ext2Reclaim.BuiltFilesTruncate` | sys/fs/ext2/inode.c:136-155 | a file built by block mapping, without single-indirect blocks and lost blocks, meets that condition; what is freed is exactly its blocks |
| `Ext2Reclaim.TruncatedIsEmpty` | sys/fs/ext2/inode.c:136-155 | afterwards the inode is an empty file of a volume that is in order |
| `Ext2Reclaim.OthersKeptByTruncating` | sys/fs/ext2/inode.c:136-155 | every other file keeps its blocks, still allocated, and its contents |
| `Ext2Tree.GrowAt` | sys/fs/ext2/bmap.c:77-83 | a new block appears at its place and no other place changes |
| `Ext2Tree.GrowKeepsFileOk` | sys/fs/ext2/bmap.c:77-97 | all blocks of a file stay allocated and distinct |
| `Ext2Tree.Create` | sys/fs/ext2/bmap.c:66-100 | creating a block and what lies above it only adds cleared blocks that were free, and fails only on a full volume |
| `Ext2Tree.GrownIsInvisible` | sys/fs/ext2/balloc.c:49-50 | adding blocks to a file does not change what it holds |
| `Ext2Tree.WrittenEffect` | sys/fs/ext2/read_write.c:179-188 | writing a data block shows at its place only |
| `Ext2Tree.OthersKeptByGrowing` | sys/fs/ext2/bmap.c:57-105 | every other file of the volume keeps its blocks and bytes |
| `Ext2Tree.FileOkIsPossible` | sys/fs/ext2/bmap.c:177-214 | a volume of 1024-byte blocks and a file that satisfy the invariants |
| `Ext2Map.MappedExactly` | sys/fs/ext2/bmap.c:191-213 | the pointers to a logical block lie inside their blocks exactly in the ranges that work |
| `Ext2Map.TripleOverruns` | sys/fs/ext2/bmap.c:141-143 | with any block size, the first logical block behind the working part leads behind its pointer block |
| `Ext2Map.PlacesDiffer` | sys/fs/ext2/bmap.c:64-91 | different logical blocks have different places |
| `Ext2Map.MappedRanges` | sys/fs/ext2/bmap.c:191-213 | the ranges that work, in numbers |
| `Ext2Map.DirectLookup` | sys/fs/ext2/bmap.c:191-199 | the first twelve logical blocks are found in the inode |
| `Ext2Map.DoubleLookup` | sys/fs/ext2/bmap.c:57-105 | with w words to a block, logical block 12 + w + i * w + j is word j of the block that word i of the block in slot 13 names, or 0 |
| `Ext2Map.TripleLookup` | sys/fs/ext2/bmap.c:110-171 | the same one level deeper, below word 0 of the block in slot 14, for the part of the triple-indirect range that works |
| `Ext2Map.LookupStraysExactly` | sys/fs/ext2/bmap.c:134-143 | behind that part a lookup leaves a pointer block exactly if the block in which the word would be is there |
| `Ext2Map.CreateKeepsMap` | sys/fs/ext2/bmap.c:177-234 | create then look up agree, all other mappings are unchanged, contents are unchanged |
| `Ext2Map.BlocksDiffer` | sys/fs/ext2/bmap.c:57-105 | distinct logical blocks share neither a data block nor a pointer slot |
| `Ext2Map.BmapDindirect` | sys/fs/ext2/bmap.c:57-105 | the code follows and fills the double-indirect tree |
| `Ext2Map.BmapTindirect` | sys/fs/ext2/bmap.c:110-171 | the same for the part of the triple-indirect range that works; behind it, nothing is found, or the code leaves a pointer block exactly if the block above is there |
| `Ext2Map.BmapIndirect` | sys/fs/ext2/bmap.c:22-52 | without create nothing is ever found; with create, bytes instead of words |
| `Ext2Map.IndirectTruncates` | sys/fs/ext2/bmap.c:41-43 | the block allocated is returned exactly if its number survives a signed byte |
| `Ext2Map.IndirectReturnsWrongBlock` | sys/fs/ext2/bmap.c:41-43 | a volume of 1024-byte blocks on which block 200 is allocated and 4294967240 returned |
| `Ext2Map.IndirectReturnsAgain` | sys/fs/ext2/bmap.c:41-43 | the number returned is kept as a byte at its place and returned again without a further allocation |
| `Ext2Map.BmapCreate` | sys/fs/ext2/bmap.c:177-214 | the split into ranges, for every logical block |
| `Ext2Map.Bmap` | sys/fs/ext2/bmap.c:220-224 | looking up, at any offset, changes nothing and finds what the finite map holds, or goes astray exactly where said |
| `Ext2Map.CreateBlock` | sys/fs/ext2/bmap.c:230-234 | creating refines the finite map |
| `Ext2File.ChunkReplaced` | sys/fs/ext2/read_write.c:169-191 | one round replaces exactly the bytes of its chunk |
| `Ext2File.ByteIs` | sys/fs/ext2/read_write.c:169-191 | byte pos of a file is byte pos % blockSize of the block found for pos / blockSize, or 0 |
| `Ext2File.WriteRounds` | sys/fs/ext2/read_write.c:168-192 | all rounds together replace exactly the bytes written, in this file only; some are left only if the volume is full, or if the loop comes to a byte where block mapping goes wrong |
| `Ext2File.FileWrite` | sys/fs/ext2/read_write.c:152-202 | at any offset: bytes, result, offset, 32-bit size and errors; bytes are left over only on a full volume, and it is lost only at the first byte outside the ranges that work |
| `Ext2File.FileRead` | sys/fs/ext2/read_write.c:94-150 | at any offset: the bytes up to the first hole, zeros from there, the result as a signed 32-bit number, and the offset; it goes astray exactly if the first hole lies behind the working range and below a pointer block |
| `Ext2File.HolesAreMiscounted` | sys/fs/ext2/read_write.c:131-136 | the number of bytes is right exactly if there is no hole; it looks like an error exactly for the largest count with a hole |
| `Ext2File.HoleReadReportsTwo` | sys/fs/ext2/read_write.c:131-136 | reading one byte of an empty file reports two |
| `Ext2File.SizeIsMeant` | sys/fs/ext2/read_write.c:194 | adding the bytes written to the 32-bit size is right exactly for appending |
| `Ext2File.ReadAfterWrite` | sys/fs/ext2/read_write.c:94-202 | what was written is read back |
| `Ext2Inode.SlotInTable` | sys/include/fs/ext2.h:288-294 | an inode lies in one block, inside the table of its group |
| `Ext2Inode.SlotsDisjoint` | sys/include/fs/ext2.h:288-294 | two inodes share no byte |
| `Ext2Inode.SlotPlace` | sys/include/fs/ext2.h:288-294 | inode 1 + g * inodesPerGroup + i starts at byte i * inodeSize of the table of group g |
| `Ext2Inode.Locate` | sys/fs/ext2/inode.c:236-240 | the macros compute that place |
| `Ext2Inode.WriteInode` | sys/fs/ext2/inode.c:245-266 | replaces this inode and no other byte |
| `Ext2Inode.ReadInode` | sys/fs/ext2/inode.c:220-243 | returns what is stored for this inode |
| `Memory.Memmove` | sys/lib/string.c:19-33 | copies a snapshot, however the ranges overlap |
| `Memory.Memset` | sys/lib/string.c:52-60 | fills a range |
| `EscapeCodes.CsiReadsBack` | sys/drivers/virtual_console.c:247-267 | a CSI sequence printed with up to 16 numbers is read back with those numbers |
| `EscapeCodes.NumberWraps` | sys/drivers/virtual_console.c:252-256 | a number of any length is read modulo 2^32 |
| `Attributes.FateIsExact` | sys/drivers/virtual_console.c:527-602 | the loop of CSI m goes on for ever exactly if it reaches an extended colour twice; otherwise it is done, or leaves the parameters, exactly as Fate says |
| `Attributes.RecognisedAre` | sys/drivers/virtual_console.c:527-600 | the numbers at which the loop does not stop |
| `Attributes.OneColourEnds` | sys/drivers/virtual_console.c:606-662 | one colour given as 38;5;n or 38;2;r;g;b, alone, ends well |
| `Attributes.ParameterIsSkipped` | sys/drivers/virtual_console.c:606-662 | the parameter behind a colour is skipped whatever it is, and a further colour behind that makes the loop endless |
| `Attributes.SetAttr` | sys/drivers/virtual_console.c:516-663 | the loop is followed to its end, or to the point from which it has none |
| `ScreenModel.InsertedRows` | sys/drivers/virtual_console.c:486-499 | IL: rows below move down by n, n rows are blank, rows above stay |
| `ScreenModel.DeletedRows` | sys/drivers/virtual_console.c:501-514 | DL: rows below move up by n, n rows at the bottom are blank |
| `ScreenModel.DeleteUndoesInsert` | sys/drivers/virtual_console.c:486-514 | deleting what was inserted restores every row not pushed off |
| `Terminal.ApplyValid` | sys/drivers/virtual_console.c:84-354 | a token keeps cursor, saved cursor and region on the screen exactly if it is no tab past the margin and sets no impossible region |
| `Terminal.TabLeavesScreen` | sys/drivers/virtual_console.c:84-89 | a tab on a screen of eight columns leaves it |
| `Terminal.RegionLeavesScreen` | sys/drivers/virtual_console.c:347-350 | a region that ends before it starts is set |
| `Terminal.PutAdvances` | sys/drivers/virtual_console.c:193-204 | a character goes to the cursor's cell and the cursor to the next cell; from the last cell the region scrolls |
| `Terminal.TextLands` | sys/drivers/virtual_console.c:193-206 | text that ends before the last cell is written to consecutive cells and changes nothing else |
| `Terminal.DownUndoesUp` | sys/drivers/virtual_console.c:271-283 | moving up and down again returns exactly if the edges do not interfere |
| `Terminal.RightUndoesLeft` | sys/drivers/virtual_console.c:284-296 | the same to the left and right |
| `Terminal.CupByStream` | sys/drivers/virtual_console.c:247-321 | writing ESC [ n ; m H in decimal is safe in every state and takes the cursor to row n and column m, each if it is on the screen, and does nothing else |
| `Terminal.RestoreAfterSave` | sys/drivers/virtual_console.c:91-103 | ESC 8 returns to where ESC 7 was, whatever is written in between |
| `Terminal.TameIsFit` | sys/drivers/virtual_console.c:181-206 | a stream of whole sequences without ESC H and CSI r is safe in any state |
| `Terminal.InterpretInPieces` | sys/drivers/virtual_console.c:161-206 | writing a stream in two pieces of whole tokens is writing it in one |
| `Terminal.WrittenIsInterpreted` | sys/drivers/virtual_console.c:180-206 | of all byte streams, exactly those of whole tokens fit for the state they meet, which excludes a CSI m without an end, are written to the end, and then interpreted |
| `Terminal.ColourHangs` | sys/drivers/virtual_console.c:527-534 | writing ESC [ 0 ; 0 ; 38 m, a whole token, never ends, whatever is on the screen |
| `Terminal.DeletesExactly` | sys/drivers/virtual_console.c:382-392 | CSI P moves the rest of the line up and blanks what it leaves exactly if two ranges of the line were blank before |
| `Terminal.DeletionLosesText` | sys/drivers/virtual_console.c:382-392 | a line of three that keeps one character instead of two |
| `Controls.ScreenErased` | sys/drivers/virtual_console.c:394-419 | CSI J, cell by cell: blanks from the cursor on, up to it, or everything, and nothing else changes |
| `Controls.LineErased` | sys/drivers/virtual_console.c:421-446 | CSI K: the same within the cursor's row |
| `Controls.CharsErased` | sys/drivers/virtual_console.c:370-380 | CSI X: blanks n characters from the cursor on, as far as the row goes |
| `Controls.BlanksPushed` | sys/drivers/virtual_console.c:356-368 | CSI @: the rest of the row moves n columns to the right behind n blanks |
| `Controls.CharsPulled` | sys/drivers/virtual_console.c:382-392 | CSI P, cell by cell: the rest of the row moves n columns to the left, and what lies n columns or more behind the cursor is blanked |
| `Controls.RowsPushed` | sys/drivers/virtual_console.c:486-499 | CSI L: rows from the cursor on move down by n behind blank rows, whatever the region is |
| `Controls.RowsPulled` | sys/drivers/virtual_console.c:501-514 | CSI M: rows below move up by n, blank rows follow |
| `Controls.RegionScrolled` | sys/drivers/virtual_console.c:458-469 | scrolling moves the rows of the region up, blanks its last row, and leaves the rows above and below |
| `Controls.PosIs` | sys/drivers/virtual_console.c:193 | the cursor's cell is cell cy * width + cx of the buffer |
| `Controls.LineControls` | sys/drivers/virtual_console.c:62-82 | carriage return, line feed, backspace, ESC D, E and M: where the cursor goes, and when the region scrolls |
| `Controls.TabStops` | sys/drivers/virtual_console.c:84-89 | ESC H goes to the next multiple of 8, or to the margin |
| `Controls.SavesAndRestores` | sys/drivers/virtual_console.c:91-103 | ESC 7 saves the cursor and ESC 8 puts it back; other bytes after ESC do nothing |
| `Controls.MovesBack` | sys/drivers/virtual_console.c:271-320 | CSI A and F move up and D to the left, at most to the edge; G and d go to a column or row, counted from 0, if it is there |
| `Controls.MovesOn` | sys/drivers/virtual_console.c:277-309 | CSI B, e and E move down, C and a to the right, by a sum in 32-bit arithmetic and at most to the last |
| `Controls.AheadIsMeant` | sys/drivers/virtual_console.c:277-296 | that is n on, or the last row or column, exactly if the sum does not wrap to a place before it |
| `Controls.DownGoesUp` | sys/drivers/virtual_console.c:277-283 | writing ESC [ 4294967295 B moves the cursor one row up |
| `Controls.Unmoving` | sys/drivers/virtual_console.c:340-354 | CSI r sets the region; CSI m and unknown sequences leave the screen alone |
| `Controls.CsiByStream` | sys/drivers/virtual_console.c:247-354 | writing a CSI sequence in decimal applies its token |
| `Controls.ErasedByStream` | sys/drivers/virtual_console.c:402-411 | writing ESC [ J blanks exactly the cells from the cursor on |
| `VirtualConsole.Console.constructor` | sys/drivers/virtual_console.c:117-128 | a new console is valid, and in step with the blank display exactly if the memory of its shadow was blank |
| `VirtualConsole.Console.ScrollUp` | sys/drivers/virtual_console.c:458-469 | the region moves up by one row |
| `VirtualConsole.Console.ScrollDown` | sys/drivers/virtual_console.c:471-484 | the region moves down by one row, copied backwards |
| `VirtualConsole.Console.InsertLines` | sys/drivers/virtual_console.c:486-499 | count one-line scrolls equal one shift by count rows |
| `VirtualConsole.Console.DeleteLines` | sys/drivers/virtual_console.c:501-514 | the same upwards |
| `VirtualConsole.ReadParameters` | sys/drivers/virtual_console.c:250-266 | the parameter loop reads decimal numbers in 32-bit arithmetic, and goes astray exactly at the end of the stream or with a digit behind the sixteenth parameter |
| `VirtualConsole.Console.CsiEscape` | sys/drivers/virtual_console.c:247-354 | one CSI sequence is applied and its last byte returned, exactly if it is whole and defined; else it says whether it strays or never ends |
| `VirtualConsole.Console.StartEscape` | sys/drivers/virtual_console.c:215-245 | the same for every escape sequence |
| `VirtualConsole.Console.WriteAll` | sys/drivers/virtual_console.c:180-206 | the loop interprets any stream as far as it stays inside the stream and on the screen and comes back, and says where and why it does not |
| `VirtualConsole.Console.Flush` | sys/drivers/virtual_console.c:137-159 | with any shadow, exactly the cells up to the last position that differ from it are drawn; if the shadow was in step, shadow, display and screen agree |
| `VirtualConsole.DrawsDifferences` | sys/drivers/virtual_console.c:145-155 | the calls are those for the cells that differ, once each, in order, at their column and row |
| `VirtualConsole.FirstFlushShows` | sys/drivers/virtual_console.c:117-159 | the first flush of a new console shows the screen exactly if no character up to the last one stood at its cell in the memory of the shadow |
| `VirtualConsole.StaleShadowHides` | sys/drivers/virtual_console.c:117-159 | a letter that the shadow happened to hold is not drawn |
| `VirtualConsole.Console.Write` | sys/drivers/virtual_console.c:161-213 | a write ends well exactly for streams of whole tokens fit for the state; what is on display then is the interpreted stream, if the shadow was in step, and otherwise what the flush of any shadow shows |
| `OpenFiles.FreeFileIsUnreferenced` | sys/fs/sys1.c:21-31 | a file with count 0 is in no descriptor table |
| `OpenFiles.PointingKeepsInv` | sys/fs/fcntl.c:30-31 | moving a slot from one file to another keeps counts equal to slots |
| `OpenFiles.OpenMeans` | sys/fs/sys1.c:62-89 | open returns the lowest NULL slot, which then names a file whose count was 0 and is 1; or fails for a reason and changes nothing |
| `OpenFiles.CloseMeans` | sys/fs/sys1.c:216-232 | close clears the slot and counts its file down, exactly for an open descriptor |
| `OpenFiles.DupMeans` | sys/fs/fcntl.c:13-36 | dup fails exactly for a descriptor that is not open or without a NULL slot from its start on; else one more slot names the file |
| `OpenFiles.CloseUndoesDup` | sys/fs/fcntl.c:13-36 | dup returns the lowest free slot from its start; closing it restores everything |
| `OpenFiles.DupFdFlag` | sys/fs/fcntl.c:33-34 | whenever F_DUPFD_CLOEXEC succeeds, the flag of the new descriptor is off |
| `OpenFiles.Dup2Effect` | sys/fs/fcntl.c:44-58 | dup2 returns exactly its second argument, or fails and changes nothing |
| `OpenFiles.CloseSomeEffect` | sys/kernel/proc.c:232-235 | close-on-exec closes exactly the flagged descriptors |
| `OpenFiles.ExecCloses` | sys/kernel/proc.c:232-235 | execve closes exactly the descriptors of the current process that are flagged |
| `OpenFiles.FlagDecidesExec` | sys/fs/fcntl.c:77-82 | a descriptor survives execve exactly according to the last F_SETFD |
| `OpenFiles.ForkCopies` | sys/kernel/proc.c:136-161 | the child has the parent's table and flags, and each file is counted once more per slot |
| `OpenFiles.ForkKeepsInv` | sys/kernel/proc.c:158-161 | fork counts every inherited slot once |
| `OpenFiles.ExitKeepsInv` | sys/kernel/proc.c:176-179 | exit leaves an empty table and a dead process, and nothing else changes but the counts |
| `OpenFiles.ExitUndoesFork` | sys/kernel/proc.c:123-200 | a child that exits gives every file its count back |
| `OpenFiles.FindFdStaysInside` | sys/fs/sys1.c:33-43 | the search of open stays inside the table exactly if it has a NULL slot |
| `OpenFiles.FullTableOverruns` | sys/fs/sys1.c:33-43 | from empty tables, one open and nineteen dups, each inside its table, lead to a table for which the next open leaves it |
| `OpenFiles.Tables.KernelOpen` | sys/fs/sys1.c:62-89 | lowest descriptor, first unused file, count 1, or an error and no change |
| `OpenFiles.Tables.KernelClose` | sys/fs/sys1.c:216-232 | the slot is cleared and its file counted down; the panic cannot happen |
| `OpenFiles.Tables.DupFrom` | sys/fs/fcntl.c:13-36 | the code computes dup |
| `OpenFiles.Tables.KernelDup2` | sys/fs/fcntl.c:44-58 | the code computes dup2 |
| `OpenFiles.After` | sys/fs/sys1.c:216-232 | any run of calls keeps every count equal to the number of slots |
| `OpenFiles.Tables.Run` | sys/kernel/proc.c:123-237 | the code computes that run |

## Left out

- AddressSpace.Machine.Run: does not start from pid 0, whose fork shares its page tables with the child on purpose; nor does it end a process whose write is refused, which the code sends to kernel_exit with SIGSEGV: here it goes on, and nothing has changed.
- AddressSpace.Machine.PageFrameAlloc: does not model the frame bitmap and its search, whose bit index is compared with a byte size; it is a contract that picks an unused frame.
- AddressSpace.Machine.PageSetWritable: does not model what it does to an address of the kernel's part of the directory, where it makes the kernel's entries writable; that is an outcome of its own, and so it is for UserWrite and HandlePageFault.
- Address-space teardown, exec mapping, and freeing of frames: `virt_free_chunk` walks whole tables for each segment, so counts are not conserved there.
- TLB, temporary mappings and inline assembly: a page frame is read and written directly.
- Scheduler.KernelScheduler.KernelFork: does not model the copy of the process fields that the scheduler does not use; runs end with a failed arch_fork.
- `kernel_nice`, which changes a priority before unlinking; priorities are fixed while a process is queued.
- Context switches: a change of the current process is atomic.
- Mutex.StepKeepsProtocol: does not use a class, because mutex_lock spans context switches; its statements are steps of a state machine in which any other process may run between two steps. Owners do not exit, and only owners unlock.
- `kernel_pause` and its stale `sleeping_on`.
- Bytes on the device that are not read back: the buffer cache is transparent, and each section between getting and releasing a buffer is atomic; so are the mutex-protected counter updates.
- Counters of free blocks are unbounded integers; they equal numbers of bits, which fit. The sector count of an inode is unbounded, too.
- Times (`i_mtime`, `i_atime`, `i_dtime`), the inode mutex, device errors, and the uninitialised buffer pointer that `file_read` tests after reading nothing.
- Ext2Map.BmapCreate: does not model what the code finds or stores behind a pointer block; it says exactly when it gets there.
- Ext2File.FileWrite: does not model what is stored once it comes to the single-indirect range, where the data may end up in any block, or behind a pointer block; nor offsets beyond the largest off_t.
- Block-device files, lseek, `ialloc.c`, directories, path lookup, symbolic links and permissions.
- VirtualConsole.Console.Write: does not model what the code does once it is behind the stream, behind its 16 parameters, in a count of 2^31 or more for CSI L and M or one that carries CSI @ around 2^32, or off the screen; it says exactly when and where it gets there, and where it never comes back. A queue whose tail is before its head is not modelled.
- Attributes.SetAttr: does not model which colours and attributes CSI m sets, only the course of its loop and how it ends; the cells of the screen hold characters without attributes.
- OpenFiles.Tables.KernelOpen: does not model what the code finds behind a full descriptor table; it says exactly when it looks there, as do KernelDup2 for a first argument outside the table and DupFrom for a negative start. The call into the file system is a parameter.
- Inode use counts of fork and exit, and the remaining fcntl commands.
- Line discipline, libc, stdio, printk, keymaps, the calendar, and device drivers.
