# A verified model of the lwos kernel

lwos is a small Minix-style teaching system: a kernel with synchronous message passing and a tick
scheduler, and user-level tasks for the terminal, the disk and the file system. This project models its
message passing, its scheduler, its file server, its terminal input, its console and its disk log in Dafny,
in the imperative form of the C code, and proves what they are for. `dafny verify dfyconfig.toml` checks it.

Each component has two layers. Pure modules define the steps as functions on values and prove what every
step, and every run of steps, keeps. Classes with arrays and loops carry the C routines over, and each method
is proved to make exactly the step that the pure layer defines, so that the results about runs hold of them.

| files | what they hold |
|---|---|
| `Ipc`, `IpcRuns` | send, receive and interrupt as steps over processes; the wait-for graph, the queues, exactly-once delivery in order, over every run |
| `Sched` | tick accounting; which process is picked, bounded waiting, proportional share |
| `Machine` | what an event from outside, a system call or an interrupt, does to message passing and scheduling together; what rows of events keep from start-up on |
| `ProcTable`, `Kernel` | the process table with its linked sending queues; `schedule`, `clock_handler`, `deadlock`, `msg_send`, `msg_receive`, `inform_init`, `sys_sendrec` as methods; `Operate` and `Boot`, any row of events |
| `Bits`, `SectorMap`, `Extents` | bitmap scans and frees over sectors; why first-fit never fails while a block is free, and when the block lies on the device |
| `InodeCache`, `Refs`, `Directory`, `FileIo` | the inode cache, the two levels of reference counts, the directory as a map, file contents as byte arrays |
| `Files`, `FileOps`, `Requests`, `FsRuns`, `FileLife` | the whole file-server state, the invariant that ties its parts together, every request as a step, and whole runs |
| `FileServer`, `Mkfs`, `Service` | the requests as code over the parts above, the file system `mkfs` writes, the server's loop |
| `Effects` | what each request changes in the tables, and that it changes nothing else |
| `Contents`, `Space` | what every file holds over whole runs, and what no transfer reaches; when all extents lie on the device |
| `Witness` | runs of requests from mkfs to states in which the file server fails its users |
| `Tty`, `Console`, `DiskLog` | the key ring and line editing, output and scrolling, the log |
| `Base` | sizes and small functions that several parts share |

A panic or a failing assertion ends the system. Where the code can meet one, either the result says exactly when it was
met (`Kernel.Kernel.MsgSend` on a deadlock, `Kernel.Kernel.Handle` for any event, `SectorMap.SectorDisk.AllocSmapBit`,
`Service.Serve`), or the precondition of the method is the condition under which it is not (room in a table, a free inode).

## Main results

- Message passing: every run keeps exact queues, no circle of waiting senders, no lost wakeup (`IpcRuns.NoDeadlockNoLostWakeup`),
  exactly-once unaltered delivery (`IpcRuns.ExactlyOnce`), oldest first (`IpcRuns.OldestFirst`), only to who asked for it
  (`IpcRuns.OnlyWhatWasAsked`, `IpcRuns.WakesWhoAsked`), and interrupts that are neither lost nor invented
  (`IpcRuns.InterruptsNeitherLostNorInvented`).
- Scheduling: proportional share and bounded waiting (`Sched.ProportionalShare`, `Sched.BoundedWaiting`), from start-up on
  (`Machine.WaitsBounded`); each process runs its ticks of a round in one unbroken stretch (`Sched.Unbroken`,
  `Machine.StoryWhoRuns`).
- The kernel as code makes exactly these steps, for any row of events, and stops exactly where an event ends the system
  (`Kernel.Kernel.Handle`, `Kernel.Kernel.Operate`, `Kernel.Boot`).
- The file server: over every run both levels of reference counts are exact (`FsRuns.Conservation`), the maps mark exactly the
  files alive and their disjoint extents (`FsRuns.RunExtents`), each file holds exactly what was written to it and READ returns
  that (`Contents.ContentsAreWrites`, `Contents.ReadsReturnWrites`), no transfer reaches the server's own sectors
  (`Contents.RunSparesServer`), and extents stay on the device exactly as long as they fit (`Space.RunOnDevice`); its loop carries
  out every run (`Service.ServeAll`).
- Bitmaps: allocation and freeing across bytes and sectors are exactly those of the whole map
  (`SectorMap.SectorDisk.AllocSmapBit`, `SectorMap.SectorDisk.FreeSmapBits`, `Extents.FirstFitExact`).
- Terminal, console, log: the line in the buffer is the fold of the keys and what the screen shows (`Tty.LineIsFold`,
  `Tty.ScreenShowsLine`); the catch-up loop ends exactly under a stated condition (`Console.SettlesExactly`); the log is the
  concatenation exactly under a stated condition (`DiskLog.LogExact`).

## Where the code does not do what it seems to promise

Each of these is proved, with the exact condition under which the code is right and an input with which it is not.

- **A receive that blocks while an interrupt is pending ends the system.** The assertion at kernel/proc.c:485 fails exactly
  when a process receives from one particular process that is not sending to it while an interrupt is pending for the
  receiver (`Kernel.Kernel.MsgReceive`, `Machine.Ends`); one interrupt after start-up leads there
  (`IpcRuns.BlocksWithInterruptPending`).
- **A refused unlink leaks a reference.** `do_unlink` takes an inode with `get_inode` and does not put it back when it
  refuses (fs/link.c:48-61). The file can then never be unlinked again (`FsRuns.RefusedForGood`,
  `Requests.UnlinkExact`). The unlink of a terminal is one (`Witness.TerminalRefused`).
- **Unlinking the last entry can lose other files.** The directory shrinks to the number of entries in use before the
  one removed, not to the position of the last one (fs/link.c:160-173). Other names keep their meaning exactly when no
  entry lies behind the slots that are still searched (`Requests.UnlinkNames`), and the directory stays a map from names
  to the inodes in use exactly when no free slot lies before an entry in front of the removed one
  (`Requests.UnlinkKeepsNamed`, `FsRuns.RequestKeepsNames`). Eleven requests lose a file (`Witness.LostFile`). Counts,
  maps and extents stay right all the same (`FsRuns.Conservation`, `FsRuns.RunExtents`).
- **Transfers are not clipped.** `do_rdwt` clips the range of sectors, not the count of bytes. It stays inside the file
  (READ) or the extent (WRITE) exactly when the request did (`FileIo.MovedExact`); otherwise it stops where `FileIo.StopIs`
  says: with the sector of the limit, or after whole buffers. A WRITE from the first sector of a full extent goes over the
  whole extent behind it (`FileIo.FullExtentStop`, `FileIo.OverrunHitsNeighbour`, reached in `Witness.OverrunReached`), and
  a READ makes the file longer (`Requests.ReadGrows`, reached in `Witness.ReadGrowsEmpty`). As long as all transfers stay
  inside, files hold what was written to them (`Contents.ContentsAreWrites`).
- **A file can grow over its extent.** A READ at the end of a full extent makes the file longer than the extent; a WRITE to
  the file behind then changes it (`Witness.GrownOver`). A WRITE inside one extent leaves another file alone exactly when that
  file lies behind it or ends, grown or not, before the bytes written (`FsRuns.RunWriteIsolated`).
- **A created file may not be found.** When the directory has shrunk too far, a new entry can take a slot in which a longer
  name is left; `strcpy` does not clear its rest, and `search_file` compares twelve bytes. The file is found exactly when no
  byte is left behind its name (`Requests.CreateFound`; an input in `Directory.NewNameLost`).
- **The sector map has bits for sectors beyond the device** (fs/main.c:196, 254-259). An extent lies on the device exactly
  while fewer blocks are in use than the device has room for (`Extents.FirstFitOnDevice`, `Space.RunOnDevice`).
- **`do_lseek` is never called.** The dispatch of `task_fs` has no case for its message and asserts (fs/main.c:36-71,
  `Service.Serve`).
- **A backspace can hang the kernel.** On a console that has never been full, a backspace over the upper edge of the
  window makes the catch-up loop of `out_char` run forever (`Console.SettlesExactly`); 25 new lines and the backspaces back
  to that edge lead there (`Console.HangReached`).
- **A terminal read for no bytes is never answered** (`Tty.EmptyRequestHangs`).
- **The log loses bytes when it reaches its last sector**, in which every call writes a copy of the header. It holds its
  strings exactly when they end before that sector or what reaches into it is a prefix of the header and the blanks behind
  it (`DiskLog.LogExact`); 1048 strings of 1000 letters and one more letter lose that letter (`DiskLog.LogLoses`).
- **mkfs clears only the first sector of the root directory** (fs/main.c:281-296). The server stands at the beginning of a
  run exactly when the rest of the directory's extent is zero (`Mkfs.Start`).

## Model

| member | source | states |
|---|---|---|
| Ipc.DeadlockExact | kernel/proc.c:227-257 | blocking src on dest closes a circle of waiting senders if and only if a chain of sendto already leads from dest to src |
| Ipc.SendKeepsInv | kernel/proc.c:270-338 | a send that passes the deadlock check keeps: exact duplicate-free queues, no circle, no lost wakeup |
| Ipc.ReceiveKeepsInv | kernel/proc.c:351-489 | every receive (interrupt taken, message taken, or blocked) keeps the same invariant |
| Ipc.InformKeepsInv | kernel/proc.c:494-519 | reporting an interrupt keeps the same invariant, whether it wakes the process or stays pending |
| IpcRuns.StepFaithful | kernel/proc.c:62-104 | every legal call and every interrupt keeps the record of messages and interrupts faithful together with the invariant |
| IpcRuns.NoDeadlockNoLostWakeup | kernel/proc.c:270-519 | in every reachable state nobody waits in a circle, nobody is receiving while a fitting sender waits, and nobody waits for an interrupt that is pending |
| IpcRuns.ExactlyOnce | kernel/proc.c:282-329 | in every run a message has arrived once and unaltered with its sender's number as source, or its sender is still blocked holding it, never both |
| IpcRuns.OnlyWhatWasAsked | kernel/proc.c:282-284 | in every run each delivery answers a receive that asked for ANY or for the sender of the packet; each interrupt message answers one that asked for ANY or INTERRUPT, has source -10 and kind 1, and a zero body if it was pending, else the body the waiting buffer held |
| IpcRuns.WakesWhoAsked | kernel/proc.c:282-284 | nobody comes to run but the receiver of ANY or of the sender by that send, of ANY or INTERRUPT by an interrupt, and the blocked sender whose message is received |
| IpcRuns.OthersUntouched | kernel/proc.c:270-519 | a call leaves phase, buffer and pending interrupt of everybody else alone, but for the sender whose message is received |
| IpcRuns.SendServes | kernel/proc.c:282-334 | a send is handed over at once, stamped, exactly to who waits for ANY or for the sender; otherwise the sender waits at the end of the queue |
| IpcRuns.ReceiveServes | kernel/proc.c:361-484 | a receive takes a pending interrupt first if it asks for ANY or INTERRUPT, then a message exactly when a fitting sender waits, and otherwise waits for what it asked for |
| IpcRuns.InformServes | kernel/proc.c:494-519 | an interrupt wakes exactly who waits for ANY or INTERRUPT, and stays pending for anybody else |
| IpcRuns.OldestFirst | kernel/proc.c:380-386 | receive from ANY delivers the oldest of all messages waiting for the caller |
| IpcRuns.OthersKeepOrder | kernel/proc.c:404-451 | receive from one process takes that one out and keeps the order of the other waiting senders |
| IpcRuns.InterruptsNeitherLostNorInvented | kernel/proc.c:361-378 | interrupt messages never outnumber the interrupts, and one is pending exactly when some came after the last delivery |
| IpcRuns.IdleStaysRunnable | kernel/main.c:159-178 | a process that makes no call stays runnable whatever the others do |
| IpcRuns.RecordOfRun | kernel/proc.c:62-104 | every run of the kernel's own state extends to a run with a record |
| IpcRuns.RecordOfCalls | kernel/proc.c:62-104 | the record of a run lists exactly its sends, in order and stamped, and counts exactly its interrupts |
| IpcRuns.BlocksWithInterruptPending | kernel/proc.c:465-485 | one interrupt after start-up, a receive from another process is no call the kernel accepts: it would block with the interrupt pending |
| Machine.StoryIsRun | kernel/proc.c:62-104 | any row of system calls and interrupts is a run of the message-passing steps, made of exactly the calls of those events |
| Machine.EndsExactly | kernel/proc.c:65-73 | which events end the system: a call of a process but idle to or from no other process, a send to one that waits for the caller, a receive from one that is not sending while an interrupt is pending |
| Machine.SendDoes | kernel/proc.c:62-104 | what a SEND leaves in phases, queues and the receiver's buffer |
| Machine.ReceiveDoes | kernel/proc.c:62-104 | what a RECEIVE leaves in phases, queues and the caller's buffer, in its three outcomes |
| Machine.InterruptDoes | kernel/clock.c:22-25 | a disk interrupt, or a clock interrupt with a key pressed, wakes task 2 or 0 from a receive that fits or is pending for it; a clock interrupt without a key leaves message passing alone |
| Machine.CountsTicks | kernel/clock.c:16-17 | only a clock interrupt counts, modulo MAX_TICKS; only the keyboard handler and the terminal task change the key flag |
| Machine.WhoRuns | kernel/clock.c:14-37 | the running process keeps the processor over every event but a call that blocks it and a clock interrupt, not re-entered, that uses up its ticks; then the pick of those with ticks gets it |
| Machine.StoryWhoRuns | kernel/clock.c:14-37 | the same at every event of every story from start-up on |
| Machine.StepFunded | kernel/clock.c:14-37 | every event keeps: the running process runnable, nobody in debt, every process with a positive priority |
| Machine.StepSound | kernel/clock.c:14-37 | a clock interrupt that is not re-entered leaves a running process that has ticks; so does every later event but a re-entered clock interrupt |
| Machine.SoundFrom | kernel/clock.c:14-37 | from the first clock interrupt after start-up on, whatever is called, the clock is one that Sched speaks of |
| Machine.WaitsBounded | kernel/proc.c:22-50 | bounded waiting from start-up on: once only the clock interrupts, every runnable process gets the processor within one interrupt, the ticks left in all, and the sum of the priorities |
| Sched.BestIsPick | kernel/proc.c:29-40 | the scan returns the lowest-numbered runnable process with the most ticks, and none exactly when no runnable process has ticks |
| Sched.ScheduleEnds | kernel/proc.c:22-50 | schedule comes back if and only if some runnable process has ticks or a positive priority |
| Sched.ScheduledPicks | kernel/proc.c:22-50 | the pick, after the one refill that happens exactly when no runnable process has ticks |
| Sched.OneTick | kernel/clock.c:14-37 | one clock interrupt takes one tick from the running process; the last tick of all refills everyone to its priority |
| Sched.KeepsProcessor | kernel/clock.c:30-34 | in every run a process with more than one tick left keeps the processor; with its last tick used the pick gets it |
| Sched.Stretch | kernel/clock.c:30-36 | from any moment on the running process runs all its ticks in one stretch, one tick less at each interrupt |
| Sched.StretchEnds | kernel/clock.c:30-36 | behind the stretch stands the process with the most ticks left, the first of several |
| Sched.Unbroken | kernel/clock.c:30-36 | within a round a process that runs at two moments runs at all moments between: it has one stretch |
| Sched.RoundEnds | kernel/clock.c:19-36 | when the ticks of all run out, each process has run exactly its ticks and all are refilled |
| Sched.ProportionalShare | kernel/proc.c:22-50 | between two refills every runnable process runs exactly its priority in ticks |
| Sched.BoundedWaiting | kernel/proc.c:22-50 | every runnable process gets the processor within (ticks left in all) plus (sum of priorities) clock interrupts |
| ProcTable.EnqueueOk | kernel/proc.c:309-334 | after the append every queue is linked, flags, msg, sendto and recvfrom agree, and the table matches its queues |
| ProcTable.DequeueOk | kernel/proc.c:440-463 | the same after a removal from any position |
| Kernel.Kernel.constructor | kernel/main.c:25-101 | the table as kernel_main leaves it satisfies the whole invariant with empty queues and nothing pending |
| Kernel.Kernel.Schedule | kernel/proc.c:22-50 | ends under Sched.ScheduleEnds' condition and makes the step Sched.Scheduled: at most one refill, then the pick |
| Kernel.Kernel.Deadlock | kernel/proc.c:227-257 | returns true exactly when a sendto chain leads from dest to src, and then prints such a chain; it always ends |
| Kernel.Kernel.MsgSend | kernel/proc.c:270-338 | false (the panic) exactly on a deadlock and then nothing changed; otherwise the send step of Ipc on the table and queues, and a schedule if the sender blocked |
| Kernel.Kernel.MsgReceive | kernel/proc.c:351-489 | the receive step of Ipc; false, the assertion at the end of the blocking branch, exactly when the source is one process that is not sending to the caller while an interrupt is pending for it |
| Kernel.Kernel.InformInit | kernel/proc.c:494-519 | the interrupt step of Ipc, and no runnable process stops being runnable |
| Kernel.Kernel.FindSender | kernel/proc.c:380-436 | finds the sender Ipc chooses, with its predecessor on the linked queue, exactly when there is one |
| Kernel.Kernel.ClockHandler | kernel/clock.c:14-37 | ticks modulo MAX_TICKS, one tick charged, an interrupt step for the terminal task when a key is pending, and schedule exactly when not re-entered and the ticks are used up |
| Kernel.Kernel.ClockRun | kernel/clock.c:14-37 | n clock interrupts without a key pressed, from start-up or any later moment on: from the first on they are a run of Sched, so proportional share and bounded waiting hold of the kernel |
| Kernel.Kernel.SysSendrec | kernel/proc.c:62-104 | succeeds exactly when the call closes no circle and does not block with an interrupt pending; then makes the step of the call on the stamped message and leaves a runnable process running |
| Kernel.Kernel.Handle | kernel/proc.c:62-104 | one event: false if and only if it is a call whose argument is no process, a send that closes a circle, or a receive that would block with an interrupt pending; otherwise it has exactly its effect on message passing and clock, of a system call, a clock or disk interrupt, or a key |
| Kernel.Kernel.Operate | kernel/proc.c:62-104 | any row of events: every one of them has its effect, in order, and it stops early exactly at an event that ends the system |
| Kernel.Boot | kernel/main.c:25-101 | from start-up on the events have their effect, all unless one ends the system; the record of IpcRuns is that of exactly the calls they make, so its results hold of the kernel; and the start is funded when priorities are positive, so those of Machine do |
| Bits.FillBack | fs/link.c:76-120 | freeing what was just allocated restores the map, and allocating what was just freed does |
| SectorMap.SectorDisk.AllocSmapBit | fs/open.c:233-277 | its assertions hold if and only if the n bits from the first clear bit on exist and are clear; it then sets them, across bytes and sectors, returns the sector they stand for, and changes nothing else on the disk |
| SectorMap.SectorDisk.AllocImapBit | fs/open.c:200-231 | sets and returns the first clear bit of the first map sector; 0 and no change when that sector is full |
| SectorMap.SectorDisk.FreeImapBit | fs/link.c:66-74 | clears exactly the bit of the inode |
| SectorMap.SectorDisk.FreeSmapBits | fs/link.c:76-120 | clears exactly the bits of the extent, for every offset and length, across bytes and sectors; its assertions hold |
| Extents.FirstClearStartsBlock | fs/open.c:244-256 | when the map is a row of whole 2048-bit blocks, the first clear bit starts a free block, the lowest one |
| Extents.FirstFitExact | fs/open.c:233-277 | the bits that alloc_smap_bit takes are clear, which is when its assertions hold, if and only if some whole block is free |
| Extents.FirstFitOnDevice | fs/main.c:196 | when all blocks in use lie on the device, the one first fit takes does too if and only if fewer are in use than the device has room for |
| Extents.AllocKeeps | fs/open.c:258-265 | allocation adds that block to the blocks in use and keeps the map a row of blocks |
| Extents.FreeKeeps | fs/link.c:86-120 | a block in use has all its bits set, and freeing it takes away exactly that block |
| InodeCache.GetAgrees | fs/main.c:392-438 | get_inode keeps the cache equal to the disk with no inode cached twice, and hands out a live slot of the number asked for |
| InodeCache.SyncAgrees | fs/main.c:459-475 | a changed inode written back keeps cache and disk equal, all other inodes of the sector included |
| InodeCache.SyncThenGet | fs/main.c:392-475 | what sync_inode wrote is what a get_inode that finds nothing cached reads back |
| InodeCache.InodeTable.GetInode | fs/main.c:392-438 | 0 for number 0; else one more reference to the cached slot, or the record of the number's sector loaded into the first free slot |
| InodeCache.InodeTable.SyncInode | fs/main.c:459-475 | writes the one record of the inode's sector and nothing else |
| Directory.SearchExact | fs/misc.c:34-51 | search_file finds a number under a name if and only if some slot binds it, although it looks at one slot too many |
| Directory.OneTooMany | fs/misc.c:34-51 | a name that only the slot behind the directory's end has is found exactly unless the directory ends with its sector |
| Directory.AddExact | fs/open.c:297-343 | after a new entry (hole reused or directory grown) the name is found, every other lookup is unchanged, and the directory stays in shape |
| Directory.AddFound | fs/open.c:297-337 | in a directory in any shape a new name is found if and only if nothing of a longer old name is left behind it in its slot |
| Directory.NewNameLost | fs/open.c:336 | a directory with a slot in use behind its end, in which a new name is not found |
| Directory.RemoveExact | fs/link.c:131-173 | the removed name is gone; every other lookup is unchanged if and only if no entry lies behind what remains searchable |
| Directory.RemovalIsRight | fs/link.c:160-173 | the directory stays in shape if and only if the removed entry was not the last one, or no free slot lies before an entry in front of it |
| Directory.ShrinkLosesAFile | fs/link.c:160-173 | in a directory with two free slots in front of c and d, removing d loses c; Witness.LostFile reaches it |
| Directory.StripPath | fs/misc.c:54-81 | drops a leading slash, takes at most twelve characters, refuses a slash among them |
| Directory.RootDirectory.SearchFile | fs/misc.c:14-52 | the root's number for an empty name, 0 for a bad path, else the lookup of the name over all sectors |
| Directory.RootDirectory.NewDirEntry | fs/open.c:297-339 | enters the name in the first free slot or behind the last, across sectors, and returns the new size |
| Directory.RootDirectory.RemoveEntry | fs/link.c:131-173 | zeroes the slot of the inode, and shrinks the size when it was the last entry |
| Refs.InUse | fs/main.c:400-410 | an inode slot is in use if and only if the server holds it as root, a process holds a descriptor on it, or a refused unlink left a reference |
| Refs.GetLeaks | fs/link.c:48-61 | a get_inode that is never put back leaves exactly one reference that nobody holds |
| Refs.ForkKeeps | fs/main.c:477-492 | fs_fork keeps both levels of counts exact |
| Refs.ExitKeeps | fs/main.c:494-513 | fs_exit keeps both levels of counts exact, empties the process's filp[] and leaves the others' |
| Refs.ForkThenExit | fs/main.c:477-513 | a child that exits leaves every count, descriptor and cached inode as before the fork |
| FileIo.MovedExact | fs/read_write.c:58-71 | the transfer stays inside the limit if and only if the request did, and then moves all of it |
| FileIo.SeekLaws | fs/open.c:166-198 | the three bases agree where they denote the same place; seeking to a place in the file gives it and -1 otherwise; two relative seeks add up; any other base gives -1 |
| FileIo.StopIs | fs/read_write.c:58-71 | a transfer over the limit stops with the sector of the limit, or after the fewest whole buffers that reach over it |
| FileIo.FullExtentStop | fs/read_write.c:58-71 | over the end of a full extent it stops one sector further, from the file's first sector a whole extent further |
| FileIo.Overrun | fs/read_write.c:58-71 | for every position and limit a request over the limit moves what was asked, or all up to that stop when that is less |
| FileIo.OverrunHitsNeighbour | fs/read_write.c:61-62 | a WRITE over the end of its extent, from any position, puts exactly the rest of what it moves at the beginning of the extent behind |
| FileIo.WriteRefines | fs/read_write.c:74-110 | a WRITE inside the extent is that write on the file as a byte array, and leaves every other file's bytes alone |
| FileIo.LeavesAloneExact | fs/read_write.c:87-96 | no bytes written to a range of the disk change a file if and only if the range lies outside it |
| FileIo.WriteThenRead | fs/read_write.c:58-112 | write, seek back, read: the data come back, with the full count both times |
| FileIo.DataDisk.Transfer | fs/read_write.c:64-103 | moves exactly Moved bytes between buffer and disk at the file position, chunk by chunk, and changes no other byte of either |
| Files.ExtentsDisjoint | fs/open.c:233-277 | extents of different files share no sector |
| Files.LeadingSlash | fs/misc.c:62-63 | a good name means the same with and without a slash in front: the number its slot binds |
| Files.RootPaths | fs/misc.c:62-63 | "/" and the empty path lead to the root |
| Files.InnerSlash | fs/misc.c:65-78 | a path with a slash behind its first character, among those taken, leads nowhere |
| Files.TwelveCount | fs/misc.c:65-78 | of a longer path the twelve characters behind the slash decide |
| FileOps.GrowsOnlyWhenFull | fs/open.c:308-333 | the directory never outgrows its extent: it grows only when all its slots hold different inodes |
| Requests.OpenKeeps | fs/open.c:21-133 | do_open, with and without O_CREAT, keeps the whole invariant and leaks no reference |
| Requests.OpenHolds | fs/open.c:37-132 | do_open fails if and only if the path is taken (O_CREAT), bad or missing, and then changes nothing; otherwise the first free entry holds a new descriptor at position 0 on the inode the path leads to |
| Requests.ForkKeepsFs | fs/main.c:477-492 | fs_fork keeps the whole invariant and leaks no reference |
| Requests.ExitKeepsFs | fs/main.c:494-513 | fs_exit keeps the whole invariant and leaks no reference |
| Requests.TransferKeeps | fs/read_write.c:105-110 | a transfer of any length on a regular file or a terminal, and a READ of the root directory that leaves it whole entries, keeps the whole invariant |
| Requests.DirectoryExact | fs/read_write.c:105-110 | a READ of the root directory keeps the whole invariant if and only if it leaves it whole entries |
| Requests.ShiftedIs | fs/read_write.c:99-110 | after n bytes fd_pos is n further and i_size the larger of old size and new position, in cache and on disk; no other descriptor, inode, map or name changes |
| Requests.ReadGrows | fs/read_write.c:105-110 | a READ that do_rdwt carries out makes the file longer if and only if it reaches over its end |
| Requests.UnlinkKeeps | fs/link.c:13-176 | do_unlink, refused or not, keeps the whole invariant; the one condition on a removal is the assertion that the entry lies inside the directory |
| Requests.UnlinkLeaks | fs/link.c:48-61 | a refusal after get_inode leaves one reference in that slot; every other outcome leaves none |
| Requests.UnlinkExact | fs/link.c:26-61 | do_unlink succeeds if and only if the path names a regular file that no process holds and that no earlier unlink was refused for |
| Requests.UnlinkNothing | fs/link.c:26-46 | the path "/" and a path that leads nowhere are refused and nothing changes |
| Requests.CreateNames | fs/open.c:135-150 | in a directory in shape a created file is found under its name, every other path leads where it led, and the directory stays in shape |
| Requests.CreateFound | fs/open.c:135-150 | whatever the shape of the directory, a created file is found under its name if and only if no longer old name is left in the slot it takes |
| Requests.UnlinkNames | fs/link.c:131-173 | in a directory in shape an unlinked name is gone in any case, and every other path leads where it led if and only if no entry lies behind the slots still searched |
| Requests.UnlinkKeepsNamed | fs/link.c:160-173 | a removal leaves the directory in shape if and only if it meets no hole in front of a last entry |
| FsRuns.InitialOk | fs/main.c:169-297 | the file system mkfs writes satisfies the whole invariant, with no reference leaked |
| FsRuns.RequestKeeps | fs/main.c:36-71 | every request keeps the whole invariant, and only a refused unlink leaves a reference behind |
| FsRuns.RunOk | fs/main.c:26-113 | every state of every run, whatever is created, unlinked and transferred, satisfies the invariant |
| FsRuns.Conservation | fs/main.c:392-513 | in every run a descriptor counts the filp[] entries pointing at it, and an inode its descriptors' counts, one for the root, and the unlinks refused at it |
| FsRuns.RequestKeepsSlots | fs/main.c:400-422 | no request reuses a cache slot or descriptor slot that is in use |
| FsRuns.RefusedForGood | fs/link.c:48-61 | after a refused unlink the inode stays cached, referenced and allocated in every later state |
| FsRuns.RunExtents | fs/open.c:200-277 | in every reachable state the maps mark exactly the inodes made and not removed since and their extents, extents are disjoint, and allocation succeeds if and only if a block is free |
| FsRuns.RequestTaken | fs/open.c:200-277 | a creation takes a number that was not in use, a removal gives one back, and no other request changes what is in use |
| FsRuns.RunAlive | fs/open.c:200-231 | in every run the inode map marks exactly the inodes made and not removed since |
| FsRuns.RequestKeepsNames | fs/link.c:160-173 | a request leaves the directory in shape if and only if it is not a removal that meets a hole |
| FsRuns.RunNamed | fs/misc.c:14-52 | as long as no removal met a hole, the directory is a map from names to exactly the inodes alive |
| FsRuns.RunWriteIsolated | fs/read_write.c:87-96 | in every reachable state, no WRITE inside one file's extent changes another file if and only if that file lies behind it or ends before the bytes written; a file that fits its extent is never changed |
| Contents.RequestKeepsInode | fs/main.c:36-71 | a request leaves every inode but the root's as it is unless it makes or removes it; a transfer lengthens it to where it ends |
| Contents.RdwrDecides | fs/read_write.c:25 | through a descriptor opened with flags 1 no byte, position or size ever moves; with 2 or 3 a transfer inside a regular file moves all its bytes |
| Contents.RunPositions | fs/read_write.c:105-110 | in every run every descriptor on a regular file stands in the file or at its end |
| Contents.ContentsAreWrites | fs/read_write.c:58-112 | over every run whose transfers stay inside their files and extents, each file fits its extent and holds exactly the fold of the WRITEs made to it since it was made |
| Contents.ReadsReturnWrites | fs/read_write.c:76-80 | ... and each READ puts that slice of it into the caller's buffer, and nothing else |
| Contents.RunSparesServer | fs/read_write.c:58-103 | over every run, also with transfers over their bounds, no transfer changes the sectors before the second extent: maps, inodes, root directory |
| Space.RunOnDevice | fs/open.c:233-277 | over every run all extents have lain on the device if and only if there were never more of them than it has room for |
| FileLife.LastCloseFrees | fs/link.c:48-61 | closing the last descriptor on a file makes its unlink succeed |
| FileLife.CreateCloseUnlink | fs/open.c:135-150 | create, close, unlink in a directory in shape: the unlink succeeds, and both maps, the numbers in use and the meaning of every name are as before |
| Effects.OpenEffect | fs/open.c:37-132 | an open that succeeds takes the caller's first free entry, the first free descriptor, at position 0, and, for an inode not cached, the first free slot; no other entry, descriptor or count changes |
| Effects.CreateEffect | fs/open.c:135-150 | a created file has the lowest free number, an extent of 2048 sectors from the lowest free bit on, and the inode of an empty regular file; no other number, bit or inode but the root's changes |
| Effects.EntryEffect | fs/open.c:297-339 | its entry is in the first free slot or behind the last, and only then is the directory one entry longer |
| Effects.CloseEffect | fs/open.c:152-164 | a close empties the entry and takes one reference from the descriptor, which is free after the last, and one from the inode; nothing else changes |
| Effects.SeekEffect | fs/open.c:166-198 | a seek moves the position of the one descriptor to a place in the file, its end included, and else changes nothing |
| Effects.ForkEffect | fs/main.c:477-492 | the child's row is the parent's, each descriptor counts one more for each time it is in it, and nothing else of descriptors and inodes changes |
| Effects.UnlinkEffect | fs/link.c:63-129 | a removal clears the bit of the inode, the bits of its extent and its record, and no other bit, record but the root's, entry, descriptor or count |
| Witness.TerminalRefused | fs/link.c:48-61 | on the file system of mkfs the unlink of dev_tty0 is refused and leaves a reference in the second cache slot |
| Witness.MkfsLookups | fs/main.c:261-296 | on the file system of mkfs /dev_tty0, /dev_tty1 and /dev_tty2 lead to inodes 2, 3 and 4, "." and "/" to 1, and these have the fields written there |
| Witness.InitOpens | fs/open.c:21-133 | the first open of Init, of /dev_tty0 for reading and writing, gives descriptor 0 on inode 2 |
| Witness.LostFile | fs/link.c:160-173 | a run of eleven requests from mkfs whose last, the unlink of d, makes c unreachable though its inode is still in use |
| Witness.OverrunReached | fs/read_write.c:58-71 | a run of four requests from mkfs to two files of which the second lies right behind the first, so that a long WRITE to the first is found in the second |
| Witness.ReadGrowsEmpty | fs/read_write.c:105-110 | a run of two requests from mkfs to a file of one byte that nobody wrote |
| Witness.GrownOver | fs/read_write.c:58-110 | a run of seven requests from mkfs in which a READ makes a file a byte longer than its extent, and that byte is the first of the next file |
| FileServer.Server.CreateFile | fs/open.c:135-150 | create_file's allocations, inode and directory entry are the step Requests.NewFile |
| FileServer.Server.DoOpen | fs/open.c:21-133 | state and result are those of Requests.Opened |
| FileServer.Server.DoClose | fs/open.c:152-164 | state is that of Requests.Closed, the answer 0 |
| FileServer.Server.DoLseek | fs/open.c:166-198 | the new position when it lies in the file, else -1 and no change |
| FileServer.Server.DoRdwt | fs/read_write.c:14-113 | 0 and no change without O_RDWR; a terminal's request is its driver's, and a READ of it suspends the caller; otherwise returns the bytes moved, moves them between buffer and disk, advances the position and grows the file when they end behind it |
| FileServer.Server.FsFork | fs/main.c:477-492 | the copied row and the loop of fs_fork make the step Requests.ForkedFs, the answer 0 |
| FileServer.Server.FsExit | fs/main.c:494-513 | the loop of fs_exit makes the step Refs.Exited, the answer 0 |
| FileServer.Server.DoUnlink | fs/link.c:13-176 | state and result are those of Requests.Unlinked |
| Mkfs.Maker.WriteMaps | fs/main.c:228-259 | the first five inode bits and the first 2049 sector bits are set, all others clear |
| Mkfs.Start | fs/main.c:119-297 | mkfs and init_fs leave the server at the beginning of a run if and only if the directory's sectors behind the first were zero already |
| Service.Serve | fs/main.c:26-71 | a message with a case makes the step of FsRuns, moves a transfer's bytes and is answered as Requests and FsRuns say, a READ on a terminal not yet; LSEEK, which has none, meets the assertion |
| Service.RepliesAre | fs/main.c:36-110 | the answers: 0 for close, fork, exit, a successful unlink and a transfer without O_RDWR; the length of a transfer that stays inside; a terminal's WRITE is answered and its READ is not |
| Service.ServeAll | fs/main.c:26-113 | the server's loop carries out any run and answers every request; disk and buffers go through the run of Contents, so its results hold of the server |
| Tty.LineIsFold | kernel/tty.c:166-206 | while a request for cnt > 0 characters is outstanding both counters add up to cnt and the buffer is the fold of the keys; the key that completes it, and no earlier one, ends it |
| Tty.KeyDoes | kernel/tty.c:166-206 | what each key does to line, counters, echo and answer: printable, backspace on a line with text, newline, any other |
| Tty.LowByteCounts | kernel/tty.c:166-178 | of a key only the low byte counts, and codes from 127 on change and echo nothing |
| Tty.EchoEndsLine | kernel/tty.c:193-203 | the echo of a completed request ends with its only newline, and before that there is none |
| Tty.AnsweredOnce | kernel/tty.c:193-203 | keys after the completing one change nothing and answer nothing |
| Tty.AnswersAre | kernel/tty.c:193-203 | over any row of keys a request is answered once, with the number of characters in its line, by the key that completes it, and without such a key not at all |
| Tty.ScreenShowsLine | kernel/tty.c:178-195 | what the echo leaves on the screen, a backspace taking back a character, is the text in the caller's buffer |
| Tty.EmptyRequestHangs | kernel/tty.c:176-204 | a request for no characters is never answered |
| Tty.Terminal.PutKey | kernel/tty.c:146-156 | the ring is a bounded queue: the key is appended, or dropped when 256 are in it |
| Tty.Terminal.DevWrite | kernel/tty.c:166-206 | takes the oldest key; the request, the echo and the one RESUME_PROC message are those of Tty.Edited, Tty.Echo and Tty.Answers |
| Tty.Terminal.DoRead | kernel/tty.c:208-218 | the new request stands at zero characters and the keys stay |
| Tty.Terminal.Drain | kernel/tty.c:41-49 | the inner loop empties the ring into the request, in order; what it shows and the answers it sends are those of these keys |
| Console.ScrollBack | kernel/console.c:193-235 | scrolling up takes back scrolling down, exactly unless the window then shows the newest rows already |
| Console.ScrollDownMoves | kernel/console.c:193-214 | scrolling down moves the window one row up, or round to the console's end, and stays exactly at the oldest row, or at the beginning with the cursor in the console's last window |
| Console.ScrollUpMoves | kernel/console.c:215-235 | scrolling up moves the window one row down, or round to the beginning, and stays exactly at the newest row, or on a full console of one window |
| Console.SettlesExactly | kernel/console.c:104-109 | the catch-up loop ends if and only if the console has been full or the cursor is not above the window |
| Console.SettledIs | kernel/console.c:104-109 | it ends with the cursor in the window: unmoved, or its row the last one shown, or the console's first window |
| Console.PlacedIs | kernel/console.c:62-102 | the cursor stays in the console and an overflow happens exactly at its end; the loop then ends unless a backspace crosses the upper edge of the window |
| Console.CursorAfter | kernel/console.c:57-102 | a printable character moves the cursor one on, newline to the beginning of the next row, backspace one back but never before 0; at the console's end it stands at 1920 and the console has been full; inside the window the window stays |
| Console.TextShown | kernel/console.c:78-82 | printable characters that fit the rest of the window stand in consecutive cells from the cursor on, in order, every other cell as it was, the cursor behind the last |
| Console.ConsoleRun | kernel/console.c:57-112 | any row of characters and scrolls keeps the window in the console, with the cursor in it after every character |
| Console.HangReached | kernel/console.c:104-109 | a run from a fresh console to one that was never full, with the cursor in the first cell of a scrolled window, which the next backspace hangs |
| Console.OverflowKeepsRows | kernel/console.c:85-100 | on overflow the last 24 rows become the first 24 of the window, a blank row follows, and cells of other consoles are untouched |
| Console.PaintsOnly | kernel/console.c:65-109 | short of an overflow only the character's cell changes, and the row of cells from the cursor on is blanked exactly when the window had to move |
| Console.Screen.OutChar | kernel/console.c:57-112 | cursor, window, full flag and video memory after a character are those of Console.Shown and Console.Painted |
| Console.Screen.ScrollScreen | kernel/console.c:183-245 | the window moves as Console.ScrolledUp and Console.ScrolledDown say |
| Console.Screen.WCopy | kernel/console.c:247-252 | copies cells down in memory correctly even when source and destination overlap |
| DiskLog.AppendHolds | fs/disklog.c:118-151 | a call appends its string in whatever sectors it falls, and neither header nor last sector disturb what was logged before |
| DiskLog.LogIsConcatenation | fs/disklog.c:118-154 | after any row of calls the log area, up to its last sector, is the concatenation of all strings, and the header tells its end |
| DiskLog.LastSectorIs | fs/disklog.c:139-151 | after any nonempty row of calls the last sector is the header followed by blanks |
| DiskLog.CallAfterCalls | fs/disklog.c:118-154 | a call on the position that a row of calls returned, 0 before the first, makes the row one call longer; the first writes at byte 64 |
| DiskLog.HeaderLines | fs/disklog.c:142-148 | the header is three lines of 64 bytes: the number right-aligned in eight, blanks, blanks |
| DiskLog.LogExact | fs/disklog.c:118-154 | the log area holds the concatenation of all strings if and only if what reaches into the last sector is a prefix of the header and its blanks; in particular when nothing does |
| DiskLog.LogLoses | fs/disklog.c:139-151 | 1048 strings of 1000 letters and one of one letter are not what the log holds |
| DiskLog.Log.Append | fs/disklog.c:118-137 | the sector loop writes the string at the position and changes no other byte |
| DiskLog.Log.DiskLog | fs/disklog.c:118-154 | returns the new position and leaves the disk of DiskLog.Logged |

## Left out

- Table sizes: the process table is a parameter of at most 37 slots; the code declares 9 (kernel/global.c:15) and scans 37 (include/sys/proc.h:63), and `sys_sendrec` accepts only native destinations (kernel/proc.c:65).
- Receiving from INTERRUPT indexes the process table at -10 (kernel/proc.c:402); modelled as "no such sender".
- Interleaving inside a kernel call: calls are atomic here, while `sys_call` enables interrupts (kernel/kernel.asm:301) and `clock_handler` calls `inform_init` before its re-entry test (kernel/clock.c:22-28).
- Message memory: each process has one message buffer, and address translation is the identity.
- Initial ticks and priorities: `kernel_main` does not copy them from its task tables; ticks start at 0, and priorities are a parameter, positive where waiting is spoken of (`Machine.Funded`).
- The idle process: one process (`idle`) with a positive priority makes no system call, as kernel/main.c:159-178 has it; a call while it runs is no event. Without a runnable process `schedule` does not come back (`Sched.ScheduleEnds`).
- The table of the running kernel includes the slots of the terminal and disk tasks, to which interrupts are reported.
- `mm`: the states WAITING and HANGING, fork's memory, exit and wait; of fork only the copy of filp[] (mm/forkexit.c:45) is taken, as one step with `fs_fork`.
- On-disk layout of inodes and directory entries: their sectors are typed records, in sequences of their own; map sectors and file data are bytes.
- One disk: maps, inodes, root directory and file data are separate stores here; that transfers reach none of the sectors of the others is `Contents.RunSparesServer`.
- One device: `i_dev` and `get_super_block` are left out, and the fields of the super block are parameters.
- Names longer than eleven characters overrun name buffers (fs/misc.c:70-76, fs/open.c:336); good names are preconditions.
- Service.InReach: a transfer's chunks must exist on the disk, because the last chunk of a long transfer is read (and written back) whole.
- Requests.TransferLegal: runs exclude a WRITE to the root directory, which puts the caller's bytes into its entries, and a READ that leaves it a part of an entry (`Requests.DirectoryExact`).
- What the terminal's driver does with a request of `do_rdwt`, DEV_OPEN messages, the hard-disk driver: driver plumbing; the driver's reply is that of kernel/tty.c:208-243.
- `do_open` with a full filp[], descriptor or inode table, and `create_file` without free inode or extent: panics, hence preconditions (`Requests.OpenLegal`).
- `do_unlink` with no room in the inode table, or with an entry that `search_file` finds in the slot behind the directory's end: a panic and the assertion at fs/link.c:168, hence preconditions (`Requests.UnlinkLegal`).
- `tty_do_write`, `printx`, keyboard decoding: easy or without a clean specification.
- Console cells outside the console: a cleared row may reach behind the console's end; the memory is taken to be large enough for it.
- `flush`: cursor and start-address registers.
- DiskLog.Log.DiskLog: does not model the reservation of the log's sectors in the sector map and their padding at the first call (fs/disklog.c:56-115), which include/sys/config.h:14-15 compile in.
- Boot code, assembly, descriptor and interrupt tables, debug dumps, library stubs.
