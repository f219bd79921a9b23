# A verified model of the xv6 kernel's storage, scheduling, memory and locking core

This project models the hard core of a customised xv6 for 32-bit x86 in Dafny and proves
properties of the model for all inputs and all runs. Nothing here is executed. The parts:

- **Crash-safe storage.** `Blocks` (blocks as bytes, words and bits), `BufferCache` (bio.c over the disk of
  memide.c), `RedoLog` (the writes of commit and recovery as values), `Log` (log.c over the buffer cache),
  `LogProtocol` (every interleaving of operations, evictions, commits, crashes and recoveries),
  `Inodes`, `FileData` and `FileSystem` (the block and inode layer of fs.c and `filewrite`),
  `FileTransactions` and `TransactionSteps` (the chunks of `filewrite`, and truncations, as transactions of the logging
  protocol that interleave store by store), `CrashSafeFiles` (what every run of them guarantees). `LogProgress` and
  `CommittedFiles` prove that the steps which finish a commit or a recovery can be taken, and that nothing is lost then.
- **Scheduling.** `Rings`, `Mlfq`, `Ageing`, `MlfqRuns`, `MlfqSlices`, `MlfqLives`, `MlfqFailures` and `Ptable` (the multilevel
  feedback queues of proc.c), `Pbs` (the priority scheduler).
- **Memory.** `Frames` (kalloc.c), `Paging`, `VirtualMemory` and `AddressSpaces` (vm.c),
  `FreeList` and `Heap` (the user-level malloc and free).
- **Synchronisation and text.** `SleepLock` (sleeplock.c over sleep and wakeup), `Pipe`, `Grep` (the matcher).
- `Finite` holds counting facts about sets and sequences of numbers, `Options` the optional value.

Code that updates state in place is a class or a method with loops, proved against specification functions;
protocols are state machines over their atomic steps, and their properties are proved for every reachable state.

## Where the code falls short of what it is for

Each of these has its exact condition proved; the lemma or method named for a failure gives the input or the run.

- `log_write` tests the log size before it looks for the block in the log, so rewriting a block that is already logged
  panics once the log is full (`LogProtocol.AbsorptionPanicsWhenFull`). With `nlog` = LOGSIZE, as mkfs
  lays the disk out, an operation within its MAXOPBLOCKS budget can panic on an append
  (`LogProtocol.AppendPanicsWhenSmall`); with `nlog` above LOGSIZE none can (`LogProtocol.Reservation`).
- NBUF equals LOGSIZE, and every logged block pins a buffer. With `nlog` above LOGSIZE three operations within their
  budgets fill the log, and the commit of the last one panics in `bget` (`Log.FullLogStops`). A spare buffer exists
  exactly when fewer than NBUF blocks are logged (`Log.SpareExactly`), and commit panics exactly without one
  (`Log.LogState.Commit`). With `nlog` = LOGSIZE that commit is never reached: the append test stops the third operation
  at LOGSIZE - 1 = 29 logged blocks. Together: no `nlog` makes three operations within their budgets safe.
- A run queue of NPROC slots looks empty once NPROC entries are in it. A process that forks until the table is full,
  sleeps and is woken by an interrupt makes every process disappear (`MlfqFailures.RingOverflows`); the exact
  condition of every step is in `MlfqRuns.StepExactly`.
- The ageing pass pops the head of a ring for each aged entry wherever that entry stands, so it loses processes
  unless the aged entries come first (`Ageing.AgeingExactly`). `MlfqFailures.AgeingCanLose` is a run from boot of init
  and two children that ends with a yield at tick 2002 and the ageing pass that follows it in the same iteration.
- `scheduler` resets the rings on its first entry. With one CPU that is after `userinit` has queued the first
  process, which is then lost (`MlfqFailures.BootOrder`, `MlfqRuns.ResetStep`).
- `pipewrite` that fills the pipe and finds its process killed, or the read end closed, returns without waking a
  waiting reader (`Pipe.ReaderStranded`). That happens exactly when a reader waits, there are more bytes than room, and
  the writer is killed or the read end is closed (`Pipe.Pipe.WritePass`). Every other step of a pipe leaves no sleeper
  stranded (`Pipe.Pipe.ReadPass`, `Pipe.Pipe.Close`).
- `malloc` of nearly 2^32 bytes wraps around and returns a block with no room (`Heap.UnitsSuffice`), and `morecore`
  asks `sbrk` for the bytes it then counts as its own exactly below 2^28 units (`Heap.SbrkAsksExactly`).
- A failed `allocuvm` restores the mapping, but the page tables it made stay. The free frames are those of before
  exactly when they did not suffice for the first page that lacks a table; otherwise as many are gone as tables were
  missing up to the page where it stopped (`AddressSpaces.Allocuvm`, `AddressSpaces.LeaksExactly`).
  `AddressSpaces.AllocLeaks` loses a frame in a fresh address space.
- A write that needs more blocks than are free panics part way, with its transaction open: `writei` and `filewrite` do so
  exactly when the data blocks and the indirect block they lack outnumber the free blocks
  (`FileSystem.FileSystem.Writei`, `FileSystem.FileSystem.Filewrite`).

## Model

| member | source | states |
|---|---|---|
| `Blocks.SetWord` | log.c:101-113 | storing a 32-bit word changes that word and no other, and no byte outside it |
| `Blocks.SetBitOnly` | fs.c:66-68 | or-ing a mask into a free-map byte sets exactly that bit of the block |
| `Blocks.ClearBitOnly` | fs.c:88-92 | and-ing with the complement clears exactly that bit of the block |
| `Blocks.MovesAdd` | fs.c:66-92 | setting and clearing the same bits of two bytes changes both by the same amount |
| `RedoLog.EncodePrefix` | log.c:101-113 | the header loop stores n and the block numbers and leaves the other words |
| `RedoLog.Encode` | log.c:84-113 | reading back a written header gives the same list of blocks |
| `RedoLog.InstallAt` | log.c:69-82 | the first k installs give exactly the first k named blocks their logged data |
| `RedoLog.InstallPrefix` | log.c:69-82 | after k installs the log region is untouched and exactly k homes are rewritten |
| `RedoLog.InstallKeepsDurable` | log.c:69-82 | a crash part way through the installs leaves what a recovery would produce unchanged |
| `RedoLog.RecoverCompletes` | log.c:115-122 | a finished recovery empties the header and every home block has its durable contents |
| `RedoLog.RecoveryPrefix` | log.c:115-122 | a crash after any number of recovery writes loses and invents nothing |
| `RedoLog.CrashyRecovery` | log.c:115-122 | the same for any number of recoveries that crash at arbitrary points |
| `RedoLog.LogPrefix` | log.c:177-190 | before the header write only log data blocks change |
| `RedoLog.HeaderCommits` | log.c:192-202 | the header write turns the durable contents into the transaction's all at once |
| `RedoLog.CommitTailIsRecovery` | log.c:192-202 | what commit writes after the header is exactly what a recovery would write |
| `RedoLog.CommitPrefix` | log.c:192-202 | after k writes of commit the durable contents are all old or all new |
| `RedoLog.CrashAtomicity` | log.c:69-122 | for any transaction, crash point and sequence of crashing recoveries, a finished recovery leaves all homes old or all new and an empty header |
| `RedoLog.CommitCompletes` | log.c:192-202 | an undisturbed commit leaves the new contents and an empty header |
| `BufferCache.UnlinkLinked` | bio.c:132-133 | two assignments take a buffer out of the doubly linked list |
| `BufferCache.InsertLinked` | bio.c:134-137 | four assignments put a buffer at the front of the doubly linked list |
| `BufferCache.Cache.constructor` | bio.c:38-56 | all buffers are linked, none is in use |
| `BufferCache.Cache.Lookup` | bio.c:66-76 | finds the buffer of a block exactly when the block is cached |
| `BufferCache.Cache.Victim` | bio.c:78-91 | the idle clean buffer released longest ago, None exactly when every buffer is referenced or dirty |
| `BufferCache.Cache.Bget` | bio.c:61-93 | a cached block gains a reference, else the idle clean buffer released longest ago is rekeyed; dirty or referenced buffers never are; panics exactly when all are in use |
| `BufferCache.Cache.Iderw` | memide.c:38-60 | a dirty buffer reaches its disk block, an invalid one is filled from it, all others stay coherent |
| `BufferCache.Cache.Bread` | bio.c:95-106 | a held valid buffer with the cached or the disk contents; the disk is not written |
| `BufferCache.Cache.Bwrite` | bio.c:108-116 | the disk changes at exactly that block and the buffer becomes clean |
| `BufferCache.Cache.Unlink` | bio.c:132-133 | the list loses exactly that buffer, no contents change |
| `BufferCache.Cache.MoveToFront` | bio.c:130-138 | the list is the old one with the buffer moved to the front, which is now the one released last |
| `BufferCache.Cache.Brelse` | bio.c:118-141 | the lock and one reference go; with the last reference the buffer moves to the front of the list and the others keep their order, else the list stays; no contents change |
| `BufferCache.ReleaseOrder` | bio.c:130-138 | moving a buffer to the front keeps the list ordered from the last release to the first |
| `BufferCache.ReleasedStays` | bio.c:61-141 | a block that is released and then a block that is read in: the released one is still cached with its contents whenever another buffer was idle and clean |
| `Log.LogState.constructor` | log.c:53-66 | initlog leaves a recovered disk, an empty log and no buffer held |
| `Log.LogState.BeginOp` | log.c:124-141 | an operation is admitted exactly when no commit is on and its reservation fits LOGSIZE |
| `Log.LogState.EndOp` | log.c:143-163 | exactly the last operation out must commit; panics exactly during a commit |
| `Log.LogState.EndCommit` | log.c:168-173 | after a commit operations are admitted again |
| `Log.LogState.LogWrite` | log.c:213-233 | absorbs or appends the block and pins it, keeping logged blocks and dirty buffers the same; the exact panic condition |
| `Log.LogState.WriteLog` | log.c:176-190 | performs exactly the writes LogWrites and keeps every logged block pinned, or panics before the first exactly when no buffer can be recycled |
| `Log.LogState.InstallTrans` | log.c:68-82 | performs exactly the writes InstallWrites and leaves no dirty buffer |
| `Log.LogState.WriteHead` | log.c:98-113 | writes the encoded header and nothing else, recycling only a clean buffer |
| `Log.LogState.ReadHead` | log.c:84-96 | the in-memory list becomes the one on disk |
| `Log.LogState.Commit` | log.c:192-202 | through the cache, commit performs exactly the disk writes CommitWrites, in order, and leaves buffers that others hold alone; it panics exactly when blocks are logged and no buffer can be recycled, before anything is written |
| `Log.LogState.RecoverFromLog` | log.c:115-122 | through the cache, recovery performs exactly the disk writes RecoveryWrites |
| `Log.EncodeLoop` | log.c:107-110 | the loop of write_head computes Encode |
| `Log.DecodeLoop` | log.c:91-94 | the loop of read_head computes HeadBlocks |
| `Log.SpareExactly` | param.h:10-12 | with the logged blocks pinned and nothing held, a buffer can be recycled exactly when fewer than NBUF are logged |
| `Log.UpdateBlock` | log.c:204-212 | one logged update absorbs or appends its block and keeps logged blocks and dirty buffers the same |
| `Log.FullLogStops` | param.h:10-12 | with nlog above LOGSIZE three operations within budget log NBUF blocks, and the commit of the last one panics |
| `Log.CommitLogged` | log.c:192-202 | the disks at the successive points of commit |
| `LogProtocol.BeginKeeps` | log.c:124-141 | admitting an operation keeps the invariant |
| `LogProtocol.UpdateKeeps` | log.c:213-233 | a logged update keeps the invariant: it is visible in the cache and not on disk |
| `LogProtocol.EndKeeps` | log.c:143-174 | ending an operation keeps the invariant, and the last one out starts the commit exactly when blocks are logged |
| `LogProtocol.LoadEvictKeeps` | bio.c:61-106 | loading and evicting clean buffers keeps the invariant |
| `LogProtocol.CopyToLogKeeps` | log.c:176-190 | each write of write_log keeps the invariant |
| `LogProtocol.WriteHeadKeeps` | log.c:98-113 | the header write makes exactly the logged updates durable |
| `LogProtocol.InstallKeeps` | log.c:68-82 | each install write keeps the invariant |
| `LogProtocol.ReinstallKeeps` | log.c:115-122 | each install write of a recovery keeps the invariant |
| `LogProtocol.ClearKeeps` | log.c:192-202 | clearing the header loses nothing |
| `LogProtocol.CrashKeeps` | log.c:53-66 | a crash in any state keeps the invariant |
| `LogProtocol.StepKeepsInv` | log.c:69-233 | every action of every process keeps the invariant |
| `LogProtocol.RunKeepsInv` | log.c:69-233 | the invariant holds after every run |
| `LogProtocol.CrashConsistency` | log.c:1-28 | at every point of every run a recovery yields exactly the durable updates, which come from whole operations |
| `LogProtocol.Isolation` | log.c:125-174 | commit runs with no operation outstanding, and until the header write no logged home block reaches the disk |
| `LogProtocol.CrashLosesOnlyUncommitted` | log.c:192-202 | a crash loses only updates not covered by the last header write, and none once the log is empty |
| `LogProtocol.Reservation` | log.c:124-141 | logged blocks plus unused budgets never exceed LOGSIZE, logged blocks are distinct, and with nlog above LOGSIZE no append within budget panics |
| `LogProtocol.AppendPanicsWhenSmall` | log.c:218-219 | for every nlog up to LOGSIZE a run leads to an append within budget that panics |
| `LogProtocol.AbsorptionPanicsWhenFull` | log.c:218-227 | for every log with a data block a run fills it, and rewriting a logged block then panics |
| `LogProgress.StepSettles` | log.c:143-174 | no step leaves logged blocks behind with no operation outstanding |
| `LogProgress.RunSettles` | log.c:143-174 | so it is after every run |
| `LogProgress.NothingPending` | log.c:143-174 | in every reachable state with no operation outstanding and no commit under way nothing is logged, every update is durable, and the home blocks on disk hold them all |
| `LogProgress.CacheComesAndGoes` | bio.c:61-106 | in every reachable state a block comes into the cache or, unless logged, goes from it, and what anybody sees of any block stays |
| `LogProgress.EndsRun` | log.c:143-163 | the outstanding operations can end one after the other; the last starts a commit exactly when blocks are logged |
| `LogProgress.CommitFinishes` | log.c:192-202 | from every point of the log writes the rest of commit can be carried out: the log is empty again and every update is durable |
| `LogProgress.InstallRuns` | log.c:198-200 | and so from every point of the installs |
| `LogProgress.OperationsCommit` | log.c:143-202 | from every reachable state with operations outstanding their ends and the commit can be carried out, after which every update is durable, the log is empty and no operation is outstanding |
| `LogProgress.CrashRecovers` | log.c:115-122 | from every reachable state a crash and a recovery can be carried out, after which exactly the durable updates are left and operations are admitted again |
| `LogProgress.CommitRunWrites` | log.c:192-202 | a commit of the protocol makes exactly the disk writes of RedoLog.CommitWrites, which Log.LogState.Commit makes, in that order |
| `LogProgress.RecoverRunWrites` | log.c:115-122 | a recovery of the protocol makes exactly the disk writes of RedoLog.RecoveryWrites, which Log.LogState.RecoverFromLog makes |
| `Inodes.DinodeRoundTrip` | fs.c:221-236 | an inode written by iupdate is read back unchanged by ilock and its neighbours in the block are untouched |
| `Inodes.DinodeLayout` | fs.h:29-36 | iupdate lays out type, major, minor and nlink as 16-bit and size and addresses as 32-bit little-endian numbers in the 64 bytes of the slot, and no byte outside it changes |
| `Inodes.AllocOwns` | fs.c:55-78 | a block balloc marks belonged to nobody, and ownership stays exact |
| `Inodes.LinkAddr` | fs.c:378-388 | allocating into an empty direct or indirect address keeps ownership exact and moves no other slot |
| `Inodes.LinkWord` | fs.c:389-396 | allocating into an empty entry of the indirect block keeps ownership exact and moves no other slot |
| `Inodes.BmapTwoSteps` | fs.c:385-397 | allocating the indirect block and then an entry of it has the effect of bmap |
| `FileData.BmapAlloc` | fs.c:370-400 | bmap at or just past the allocated blocks leaves a contiguous prefix of blocks allocated |
| `FileData.BmapBytes` | fs.c:370-400 | bmap changes no allocated byte of any file |
| `FileData.StoreBlock` | fs.c:499-503 | replacing the data of a file block moves no slot, no free-map bit and no other byte |
| `FileData.WritePiece` | fs.c:498-504 | one piece lands at its position and every other byte of every file stays |
| `FileData.WritingStep` | fs.c:498-504 | an iteration of writei extends the written part |
| `FileData.DoneWithin` | fs.c:506-510 | a write inside the file allocates nothing, so skipping iupdate loses nothing |
| `FileData.DoneGrown` | fs.c:506-510 | a write that allocates also grows the size, and iupdate brings both to disk |
| `FileData.ContentsOverlay` | fs.c:481-511 | the file reads as the old contents overlaid with the new bytes |
| `FileData.IupdateEffect` | fs.c:220-236 | iupdate changes the on-disk inode and nothing else |
| `FileData.PutDinodeFrame` | fs.c:226-234 | the other inodes' bytes in the block stay |
| `FileData.ReadableBlock` | fs.c:469-474 | below the size every block is allocated, so readi never allocates |
| `FileData.FreeSlot` | fs.c:414-431 | a block not yet freed still has its bit set, so bfree does not panic |
| `FileData.TruncOwns` | fs.c:402-435 | freeing every slot of an inode keeps ownership exact |
| `FileData.TruncBudget` | fs.c:402-435 | what itrunc logs is within MAXOPBLOCKS exactly when the file lies in fewer than MAXOPBLOCKS free-map blocks |
| `FileData.WriteiFootprint` | fs.c:481-511 | writei changes only its inode's slot, blocks its file reaches and the free map, and moves no other inode |
| `FileData.TruncFootprint` | fs.c:402-435 | itrunc changes only its inode's slot and the free map, and moves no other inode |
| `FileData.AllocTakesOne` | fs.c:63-75 | balloc leaves exactly one free block less |
| `FileData.BmapCostIs` | fs.c:370-400 | how many blocks bmap allocates for the next block of a file: none, one, or two with the indirect block |
| `FileData.CostStep` | fs.c:498-504 | an iteration of writei adds what its block costs to the cost of the write |
| `FileData.WrittenTwice` | file.c:135-152 | consecutive writes are one write of the concatenation |
| `FileData.AcceptedChunk` | file.c:135-152 | the chunks that filewrite carries out are exactly those that end within the largest file |
| `FileData.SofarChunk` | file.c:135-152 | after each chunk the bytes so far are one write, and exactly the blocks it needs have been allocated |
| `FileData.SofarFull` | file.c:135-152 | a chunk that finds too few free blocks means the whole write needs more than there were |
| `FileData.SofarEnds` | file.c:147-153 | filewrite that ends has written all it can, which is all of it exactly when it fits the file |
| `FileData.ChunkBlocks` | file.c:127-133 | a chunk visits and allocates at most MAXOPBLOCKS - 3 blocks, and some chunk does |
| `FileData.ChunkBound` | file.c:127-152 | a chunk of filewrite logs at most MAXOPBLOCKS distinct blocks even if every allocation touches another free-map block |
| `FileSystem.FileSystem.Balloc` | fs.c:55-78 | marks, zeroes and logs the first free block; fails exactly when none is free, and then changes nothing |
| `FileSystem.FileSystem.Bfree` | fs.c:80-95 | clears exactly the bit of the block and changes no block it does not log |
| `FileSystem.FileSystem.EnsureAddr` | fs.c:378-388 | the address of a slot, allocated if it was empty, with what is logged and how many blocks stay free |
| `FileSystem.FileSystem.EnsureWord` | fs.c:389-396 | the entry of the indirect block, allocated if it was empty, with what is logged and how many blocks stay free |
| `FileSystem.FileSystem.Bmap` | fs.c:370-400 | the block of the file, nothing but missing blocks allocated, a bound on the blocks logged; fails exactly with fewer free blocks than missing ones |
| `FileSystem.FileSystem.WriteLoop` | fs.c:498-504 | the loop of writei writes all of src and logs within the bound, or fails exactly with fewer free blocks than the write needs |
| `FileSystem.FileSystem.Iupdate` | fs.c:220-236 | the on-disk inode is brought up to date and the other inodes stay so |
| `FileSystem.FileSystem.Lengthen` | fs.c:506-509 | a longer file has its new size in memory and on disk, and nothing else changes |
| `FileSystem.FileSystem.Writei` | fs.c:481-511 | the exact error condition, and the exact condition for running out of blocks; otherwise the file is overlaid, every other file untouched, the allocated blocks are exactly those below the size and as many fewer are free; every changed block is logged, at most MAXOPBLOCKS by a chunk, and is the inode's own or the free map |
| `FileSystem.FileSystem.Readi` | fs.c:452-476 | returns exactly the bytes of the file from off on, cut at the size; nothing is allocated or logged |
| `FileSystem.FileSystem.FreeDirect` | fs.c:414-419 | the direct blocks are freed and their slots cleared; only logged blocks change |
| `FileSystem.FileSystem.FreeListed` | fs.c:421-428 | the blocks listed in the indirect block are freed; only logged blocks change |
| `FileSystem.FileSystem.FreeAll` | fs.c:414-431 | exactly the blocks of the inode are freed, direct, listed and indirect, and every slot is cleared |
| `FileSystem.FileSystem.Itrunc` | fs.c:402-435 | frees exactly the inode's blocks without a panic, empties the file, leaves the others alone, logs exactly the file's free-map blocks and its inode block, and changes no other block; within the budget it is one transaction |
| `FileSystem.FileSystem.Filewrite` | file.c:115-156 | writes exactly the chunks that fit the file, all of src exactly when it fits; panics exactly when those chunks need more blocks than are free; each chunk is a transaction that changes only blocks it logs, at most MAXOPBLOCKS |
| `CrashSafeFiles.ShowsDecodes` | fs.h:8-22 | a disk that agrees with a file system outside the log decodes to it |
| `FileTransactions.OwnOnce` | fs.c:131-165 | no byte of the disk is under the locks of two inodes |
| `FileTransactions.OwnAsAlone` | fs.c:131-165 | at any moment a transaction finds the bytes under its lock as if it were alone |
| `FileTransactions.StoresAdd` | fs.c:63-92 | whatever others have done to a block, a transaction's store changes it by what it would alone, in shared inode and free-map blocks too |
| `FileTransactions.StartApart` | fs.c:131-165 | a transaction that begins will touch nothing under another inode's lock |
| `TransactionSteps.StartKeeps` | file.c:140-142 | beginning a transaction while others are under way keeps the invariant |
| `TransactionSteps.PutKeeps` | log.c:204-233 | a store of one transaction among those of others keeps the invariant: what is stored and what is to come make up all transactions |
| `TransactionSteps.CrashKeepsSaved` | log.c:115-122 | a crash at any moment, also between the stores of transactions, cuts the history at the last header write |
| `TransactionSteps.StepKeepsJoint` | file.c:135-152 | every step of transactions, operations, cache, commit, crash and recovery keeps the files in step with the log |
| `CrashSafeFiles.ChainContents` | file.c:135-152 | a file is its first contents with the chunks laid over one another and emptied by each truncation |
| `CrashSafeFiles.FilesSurvive` | file.c:127-152 | at every moment of every run, with writes and truncations interleaved store by store, recovery leaves a well-formed file system whose files hold their contents after the first so many whole transactions, those begun by the last header write |
| `CrashSafeFiles.HeaderSavesAll` | log.c:143-202 | a header write finds no transaction under way and saves all that have begun |
| `CrashSafeFiles.TxnRuns` | file.c:135-152 | every transaction that writei or itrunc makes can be carried out through the log without a panic, whatever else is outstanding or under way, in any log with room for it |
| `CommittedFiles.NothingLost` | log.c:143-202 | in every run, whenever no operation is outstanding and no commit is under way, recovery gives every file the contents after all transactions |
| `CommittedFiles.TxnsCommit` | log.c:143-202 | from every reachable state with no transaction under way the outstanding operations can end; if anything was logged all transactions are then saved, and recovery gives the file system after all of them |
| `CommittedFiles.TxnSurvives` | file.c:135-152 | every transaction that writei or itrunc makes can be carried out and committed; a crash after that leaves exactly what it wrote |
| `Rings.EnqueueEntries` | proc.c:32-41 | enqueue appends to its ring, or empties it when it already has NPROC-1 entries |
| `Rings.DequeueEntries` | proc.c:42-47 | dequeue removes the head of its ring and touches no other |
| `Rings.ScanIndex` | proc.c:609-618 | the slot scan visits the entries of a ring in order and stops at the tail |
| `Mlfq.EnqueueExactly` | proc.c:32-41 | an enqueue keeps every RUNNABLE process queued exactly once exactly when the ring has room |
| `Mlfq.WakeProcs` | proc.c:789-803 | wakeup1 makes exactly the sleepers on the channel RUNNABLE |
| `Mlfq.WakeupExactly` | proc.c:789-803 | wakeup1 keeps the run queues consistent exactly when it fills no level |
| `Mlfq.WakeupFits` | proc.c:789-803 | the same condition told from the state before the call |
| `Mlfq.WakeupOrder` | proc.c:789-803 | each ring gains its woken processes at the tail, in table order |
| `Mlfq.KillExactly` | proc.c:816-841 | kill keeps the run queues consistent exactly when it fills no level |
| `Mlfq.KillFits` | proc.c:816-841 | the same condition told from the state before the call |
| `Mlfq.KillProcs` | proc.c:816-841 | kill marks exactly the first process with the pid as killed, makes it RUNNABLE if it slept, and changes no other |
| `Mlfq.KillRings` | proc.c:816-841 | a sleeper that kill wakes joins the tail of its own level and no other ring changes |
| `Mlfq.PickIsHead` | proc.c:603-621 | the scan finds the head of the lowest-numbered nonempty level |
| `Mlfq.RunHeadConsistent` | proc.c:622-641 | the head is RUNNABLE and at that level, so the panic is unreachable; taking it keeps the run queues consistent |
| `Ageing.ScanResult` | proc.c:667-678 | scanning a level pops as many entries as are aged and appends the aged ones one level up |
| `Ageing.PassResult` | proc.c:663-680 | where every ring and every process ends up after the pass |
| `Ageing.PassProcs` | proc.c:663-680 | which processes the pass raises, whatever becomes of the rings |
| `Ageing.PrefixRing` | proc.c:663-680 | with aged prefixes each ring becomes its unaged entries followed by the aged ones from below |
| `Ageing.NonPrefixLoses` | proc.c:671-676 | otherwise an entry that is not aged is popped and lost |
| `Ageing.OverfullLoses` | proc.c:674-675 | a ring that would gather all NPROC processes overflows and loses them |
| `Ageing.IdleGivesRoom` | proc.c:663-680 | no ring overflows while some process is not RUNNABLE |
| `Ageing.AgeingExactly` | proc.c:663-680 | the pass conserves the run queues exactly when the aged entries come first and no ring overflows |
| `Ageing.AgeingRaisesByOne` | proc.c:663-680 | exactly the aged RUNNABLE processes below level 0 rise, each by one level |
| `MlfqRuns.QuietStep` | proc.c:104-161 | allocation with the next pid, a failed allocation, exit, sleep, reaping and accounting keep the run-queue invariant |
| `MlfqRuns.ClockStep` | trap.c:51-55 | the clock only grows, and ticking keeps the invariant |
| `MlfqRuns.DispatchStep` | proc.c:622-641 | a dispatch keeps the run-queue invariant |
| `MlfqRuns.StartStep` | proc.c:264-272 | userinit and fork keep it: a ring always has room for what a running process starts |
| `MlfqRuns.YieldStep` | proc.c:653-661 | the end of a slice keeps it exactly when the ring below has fewer than NPROC-1 entries |
| `MlfqRuns.WakeupStep` | proc.c:789-811 | wakeup keeps it exactly when it would not leave every process RUNNABLE at one level |
| `MlfqRuns.KillStep` | proc.c:816-841 | kill, called by a running process, keeps it |
| `MlfqRuns.AgeStep` | proc.c:663-680 | ageing keeps it exactly when the aged entries come first and no ring overflows |
| `MlfqRuns.ResetStep` | proc.c:464-475 | the scheduler's reset keeps it exactly while no process is RUNNABLE |
| `MlfqRuns.StepExactly` | proc.c:464-690 | every step keeps the invariant exactly when the state before it meets the step's condition |
| `MlfqRuns.RunInvariant` | proc.c:464-690 | over every interleaving, on any number of CPUs, of steps that meet their conditions the invariant holds |
| `MlfqRuns.UnsafeBreaks` | proc.c:464-690 | the first step of a run that does not meet its condition breaks the invariant |
| `MlfqRuns.IdleRunInvariant` | proc.c:464-690 | in runs with one process that is never RUNNABLE only the place of the aged entries matters |
| `MlfqRuns.DispatchPicksHead` | proc.c:603-641 | in every reachable state the process about to run is RUNNABLE, at the lowest-numbered nonempty level, and queued nowhere else |
| `MlfqSlices.StepEntries` | proc.c:32-47 | what each step does to each ring |
| `MlfqSlices.OtherStep` | proc.c:629-652 | no step but its own takes a process off its CPU or changes its level |
| `MlfqSlices.RunsWholeSlice` | proc.c:629-652 | in every run a dispatched process that neither sleeps nor exits keeps its CPU for exactly 2^level ticks, whatever is interleaved |
| `MlfqSlices.SliceEnds` | proc.c:653-661 | at the last of them it joins the tail of the next level down, as that ring then is |
| `MlfqLives.StateEdges` | proc.h:35-35 | every step moves every process along an edge of the life cycle or leaves its state |
| `MlfqLives.RunningIsOnCpu` | proc.c:629-641 | in every run the RUNNING processes are exactly those on a CPU |
| `MlfqLives.ExitThenReap` | proc.c:280-389 | a process that exits leaves its CPU idle and can be reaped, which frees its slot with pid 0 and no kill pending; all other processes, CPUs and rings stay |
| `MlfqLives.AllocThenAbandon` | proc.c:104-143 | an allocation that is given up frees its slot and changes no other process, CPU or ring |
| `MlfqLives.StepAccounts` | trap.c:59-63 | what each step does to the run count, the last tick charged, the kill flag and the channel of each process |
| `MlfqLives.HistoryTells` | proc.c:629-641 | after every run these are what the history of the process says: the switches to it, the last charge, whether kill found it since, the last sleep |
| `MlfqLives.UniquePids` | proc.c:104-123 | in every run the processes in use have different pids |
| `MlfqFailures.BootOrder` | main.c:34-37 | a run in which the reset after userinit loses the first process |
| `MlfqFailures.RingOverflows` | proc.c:789-803 | a run from boot in which a wakeup makes NPROC processes RUNNABLE at one level and all of them are lost |
| `MlfqFailures.AgeingCanLose` | proc.c:663-680 | a run from boot of init and two children, ending with a yield, after which the ageing pass of the same iteration loses a RUNNABLE process |
| `Ptable.Ptable.Enqueue` | proc.c:32-41 | the in-place update is Rings.Enqueue |
| `Ptable.Ptable.Dequeue` | proc.c:42-47 | the in-place update is Rings.Dequeue |
| `Ptable.Ptable.Wakeup1` | proc.c:789-803 | the loop over the process table is Mlfq.WakeFrom |
| `Ptable.Ptable.KillPid` | proc.c:816-841 | the loop is Mlfq.Kill, the result says whether the pid was found, and the process found is marked killed and not asleep |
| `Ptable.Ptable.PickNext` | proc.c:603-621 | the nested scan is Rings.Pick |
| `Ptable.Ptable.AgeOne` | proc.c:669-678 | the scan of one ring is Ageing.AgeLevel |
| `Ptable.Ptable.AgeAll` | proc.c:663-680 | the pass is Ageing.AgeFrom |
| `Pbs.Pick` | proc.c:511-539 | the first RUNNABLE process that is least by priority and then by last_executed |
| `Pbs.WaiterUnchanged` | proc.c:511-556 | a waiting process keeps its priority and last_executed |
| `Pbs.DispatchedOnce` | proc.c:511-556 | no process overtakes a process waiting at the least priority value twice |
| `Pbs.WaitIsBounded` | proc.c:511-556 | without forks fewer than NPROC dispatches can overtake it in all |
| `Pbs.HistoryTells` | proc.c:511-556 | after every run the ticks, and the state, priority and last_executed of each process, are what its history says |
| `Pbs.SomeoneIsBest` | proc.c:511-539 | whenever some process is RUNNABLE the scheduler has one to run |
| `Frames.PtrRoundTrip` | memlayout.h:11-12 | P2V and V2P are inverse on frames |
| `Frames.Memory.Kfree` | kalloc.c:54-77 | the page is pushed on the linked free list, filled with junk, and no other page changes |
| `Frames.Memory.Kalloc` | kalloc.c:79-95 | the page freed last is popped, 0 exactly when none is free |
| `Frames.Memory.Freerange` | kalloc.c:46-53 | exactly the whole pages of the range become free |
| `Paging.WfChange` | vm.c:221-298 | a slot that takes a frame of nobody's, or gives its frame up, keeps all frames held once and not free |
| `Paging.StorePte` | vm.c:60-80 | a store into a table changes the flat map at its page and nowhere else |
| `Paging.StoreTable` | vm.c:44-53 | hooking up a zeroed table leaves the flat map as it is |
| `Paging.TableStep` | vm.c:44-53 | a new table comes out of the free frames and no frame is lost |
| `Paging.MapStep` | vm.c:69-73 | mapping a page keeps the address space well formed and conserves frames |
| `Paging.UnmapStep` | vm.c:269-276 | freeing a page and clearing its entry keeps the address space well formed and conserves frames |
| `Paging.TranslateIs` | vm.c:32-55 | in a well-formed address space the two-level walk of the hardware lets through exactly the accesses that the flags in the flat map allow, and to the same frame |
| `VirtualMemory.Walkpgdir` | vm.c:32-55 | the table for an address; the flat map is unchanged, the directory takes nothing from what the table entries allow, and it fails exactly without a table when none may or can be made |
| `VirtualMemory.Mappages` | vm.c:57-80 | extends the flat map by the page range with the flags asked for, which then hold for the hardware, or by a prefix of it exactly when there are fewer free frames than missing tables |
| `VirtualMemory.Deallocuvm` | vm.c:251-279 | the skip-ahead loop unmaps every page of the range and frees exactly their frames, as many as were mapped; tables and everything else stay |
| `VirtualMemory.ReleasedSkip` | vm.c:265-268 | skipping the pages of a missing table equals going page by page |
| `VirtualMemory.FreeTables` | vm.c:291-296 | exactly the page tables become free |
| `VirtualMemory.Freevm` | vm.c:281-298 | exactly the user frames, the tables and the directory become free, each once |
| `AddressSpaces.KmapRow` | vm.c:103-115 | the kmap table spells out the kernel's mapping: physical memory at KERNBASE, read-only text, devices in place |
| `AddressSpaces.AllRows` | vm.c:103-115 | the rows of kmap need exactly 64 page tables, wherever the kernel's data begins |
| `AddressSpaces.SpentShort` | vm.c:233-247 | running out of frames part way means there were fewer than all pages and tables take |
| `AddressSpaces.UserNeeds` | vm.c:325-339 | n user pages of a fresh address space take n frames and a table for each 1024 |
| `AddressSpaces.Setupkvm` | vm.c:117-136 | an address space with exactly the kernel's mapping, text read-only and nothing for users; fails exactly below 65 free frames, and then leaves them as before |
| `AddressSpaces.KernelSees` | vm.c:103-136 | every access by the kernel to its half reaches the right frame, except writes to its text; every access by a user faults |
| `AddressSpaces.Allocuvm` | vm.c:219-249 | zeroed, distinct frames for exactly the new pages, which a user may read and write; fails exactly at KERNBASE or with fewer free frames than new pages and missing tables, and then the mapping is restored; where it stopped, how many frames are gone for tables, and exactly when none is |
| `AddressSpaces.UserUses` | vm.c:219-249 | the hardware lets a user read and write the pages that allocuvm has mapped |
| `AddressSpaces.RolledBack` | vm.c:235-246 | deallocuvm after a partial allocation restores the mapping |
| `AddressSpaces.GiveUp` | vm.c:235-246 | both failure paths: the mapping is restored and the frames gone are the tables made on the way |
| `AddressSpaces.LeaksExactly` | vm.c:233-247 | a failed allocation leaves the free frames of before exactly when they did not suffice for the first page without a table |
| `AddressSpaces.AllocLeaks` | vm.c:219-249 | two pages asked for with two frames left in a fresh address space: the mapping is restored and one frame is gone |
| `AddressSpaces.Copyuvm` | vm.c:313-345 | the child has the parent's pages and contents on frames of its own, and the hardware allows it exactly the accesses it allows the parent; fails exactly with fewer free frames than kernel half, pages and user tables take, and then the free frames are those of before; the parent is untouched |
| `AddressSpaces.CopyUses` | vm.c:313-345 | equal flags in the two flat maps mean that the hardware lets through the same accesses |
| `AddressSpaces.Bystander` | vm.c:313-345 | an address space outside the frames written keeps its mapping and its pages |
| `FreeList.InsertWf` | umalloc.c:33-42 | joining with the neighbours keeps the list address-ordered and fully coalesced |
| `FreeList.InsertCovers` | umalloc.c:33-42 | the list then covers exactly the freed units besides the free ones |
| `FreeList.FreeHeap` | umalloc.c:24-44 | free moves a block from the allocated to the free side and conserves all units |
| `FreeList.MallocHeap` | umalloc.c:74-85 | taking a block moves it from the free to the allocated side and conserves all units |
| `FreeList.GrantHeap` | umalloc.c:46-61 | memory from sbrk joins the heap |
| `FreeList.AtPlace` | umalloc.c:30-32 | the two tests of the search succeed exactly at the block's place in the ring |
| `Heap.Heap.FindPlace` | umalloc.c:30-32 | the search ends at the block's place wherever freep stands |
| `Heap.Heap.Relink` | umalloc.c:33-42 | the link and size updates spell out the list with the block joined in |
| `Heap.Heap.Free` | umalloc.c:24-44 | the ring stays address-ordered, coalesced and apart from the live blocks, which lose exactly the freed one |
| `Heap.Heap.Morecore` | umalloc.c:46-61 | what sbrk granted goes to its place in the list, freep stands before it, and the heap then has a block that fits |
| `Heap.Heap.Take` | umalloc.c:75-84 | the block or the end of it becomes live, apart from all others |
| `Heap.Heap.Malloc` | umalloc.c:63-90 | next fit from freep, which moves to the entry before; the search ends; a fresh block of the right size apart from all live ones, from the list as it is or with the granted memory in it, or 0 exactly when nothing fits and sbrk failed |
| `Heap.UnitsSuffice` | umalloc.c:69-69 | a block holds the bytes asked for exactly when the rounding does not wrap around |
| `Heap.SbrkAsksExactly` | umalloc.c:52-58 | sbrk is asked for the units that are then freed exactly below 2^28 units |
| `SleepLock.StepLocks` | sleeplock.c:22-42 | each step takes and gives up exactly the two spinlocks it should |
| `SleepLock.StepOwner` | sleeplock.c:22-42 | locked and pid change only with who has the lock; the test under the spinlock takes the lock when it is free and goes to sleep otherwise |
| `SleepLock.StepKeepsSleepers` | proc.c:746-811 | no step leaves a sleeper that nobody will wake |
| `SleepLock.StepKeepsInv` | sleeplock.c:22-53 | every step of every process keeps the invariant |
| `SleepLock.RunKeepsInv` | sleeplock.c:22-53 | the invariant holds after every run of any number of processes |
| `SleepLock.MutualExclusion` | sleeplock.c:22-42 | at most one process has the lock, and pid names it |
| `SleepLock.NoLostWakeup` | proc.c:746-811 | with the spinlock free and locked 0 no process sleeps on the lock or is about to |
| `SleepLock.HoldingsleepCorrect` | sleeplock.c:44-53 | holdingsleep is true exactly for the process that has the lock |
| `SleepLock.LeavesWith` | sleeplock.c:22-32 | no step of anybody takes a process out of acquiresleep but with the lock and its pid in it, nor out of releasesleep but without the lock |
| `SleepLock.AcquireReturns` | sleeplock.c:22-32 | in every run a process that was in acquiresleep and no longer is had the lock when it came out, and was in it until then |
| `SleepLock.AcquireSleeps` | sleeplock.c:25-28 | a process that finds the lock taken goes to sleep and lets go of both spinlocks |
| `SleepLock.ReleaseWakes` | sleeplock.c:34-42 | releasesleep clears locked and pid and makes every sleeper runnable |
| `SleepLock.AcquireTakes` | sleeplock.c:22-32 | from every reachable state with the lock and the spinlocks free acquiresleep can be carried out in three steps and ends with the lock |
| `SleepLock.HandOver` | sleeplock.c:22-42 | from every reachable state with one process holding the lock and the spinlocks free, another can ask for it, sleep, be woken by the release and have it |
| `SleepLock.AskReturns` | sleeplock.c:44-53 | with the inner spinlock free holdingsleep can be carried out, answers under it whether the process has the lock, and changes nothing |
| `SleepLock.KilledTestsAgain` | proc.c:816-841 | a sleeper woken by kill tests the lock again before it goes on |
| `Pipe.WrapIndex` | pipe.c:11-18 | counters modulo m index a ring of size n consistently exactly when n divides m |
| `Pipe.Pipe.Buffered` | pipe.c:13-20 | bytes delivered followed by bytes buffered are the bytes accepted, at most PIPESIZE of them buffered |
| `Pipe.Pipe.CountersExact` | pipe.c:78-121 | the full and empty tests see the true occupancy in spite of 32-bit wrap-around |
| `Pipe.Pipe.constructor` | pipe.c:31-36 | a new pipe is open at both ends and empty |
| `Pipe.Pipe.Put` | pipe.c:93-93 | one byte is accepted at the tail |
| `Pipe.Pipe.Take` | pipe.c:116-116 | the oldest buffered byte is delivered |
| `Pipe.Pipe.WritePass` | pipe.c:77-98 | accepts the bytes in order until done, blocked on a full pipe, or given up, each told from the state before; who is woken; a sleeper is stranded exactly when a reader waits, the bytes exceed the room, and the writer is killed or the read end is closed |
| `Pipe.Pipe.ReadPass` | pipe.c:100-121 | delivers the oldest bytes, as many as asked for and there are, or blocks or fails exactly when empty and open; who is woken; strands no sleeper |
| `Pipe.Pipe.Close` | pipe.c:59-75 | closes one end, wakes the other's sleepers and frees the pipe exactly when both are closed; strands no sleeper |
| `Pipe.Pipe.KillSleeper` | proc.c:826-834 | a killed sleeper wakes; strands no other |
| `Pipe.ReaderStranded` | pipe.c:84-92 | a killed writer fills the pipe and leaves a waiting reader asleep |
| `Grep.FirstItem` | grep.c:84-96 | a pattern matches here exactly when its first item takes some beginning and the rest matches what is left |
| `Grep.MatchHere` | grep.c:84-96 | true exactly when the pattern matches from the beginning of the text |
| `Grep.MatchStar` | grep.c:98-106 | true exactly when a repetition of c followed by the pattern matches |
| `Grep.Match` | grep.c:72-82 | true exactly when the pattern matches somewhere, or at the beginning after a caret |
| `Grep.EndLaws` | grep.c:84-92 | the empty pattern matches everything, a final dollar exactly the empty text |
| `Grep.CharLaw` | grep.c:93-95 | a plain character or a dot takes one character |
| `Grep.StarLaw` | grep.c:98-106 | a starred character takes any number of them |
| `Grep.SearchLaws` | grep.c:72-82 | a caret matches at the beginning only; without it the pattern may begin anywhere |

## Left out

- Device and boot code, trap frames, context switches and the internals of spinlocks: acquire and release are atomic steps, and a dispatch is one step.
- Directories, paths, link counts, the inode cache's reference counts and ialloc: the inode layer is modelled for plain files.
- The DEFAULT and FCFS schedulers, exec, system call argument fetching, the line loop of grep and the user programs would only add easy members.
- The device branch of readi and writei (a device inode is passed to its driver) is not part of this model.
- FileSystem.FileSystem.Writei: the panic for a full disk is the result `ok == false`; what a panicking kernel leaves in memory is not described.
- FileSystem.FileSystem.Filewrite: the pipe branch and a negative count are not modelled.
- Log.LogState.Commit: nobody holds a log block or a logged block; waiting for such a buffer, and buffers loaded or evicted meanwhile, appear only in LogProtocol.
- CrashSafeFiles.FilesSurvive: transactions are ordered as they begin, so runs in which one takes a block that is freed by another begun later are not covered; other system calls than file writes and truncations are not among the transactions.
- CommittedFiles.TxnSurvives: the operation has logged nothing yet and no other transaction is under way.
- CrashSafeFiles.TxnRuns: the operation has logged nothing yet, and no other transaction under way has bits left to change in the free-map blocks it needs.
- LogProtocol.CrashConsistency: block writes are atomic and reach the disk in the order they are issued, as with the disk of memide.c.
- Heap.Heap.Malloc: sbrk's answer is a parameter; it lies past all memory obtained before, addresses count header units, and a granted request is one that SbrkAsksExactly calls exact.
- Heap.Heap.Free: freeing an address that malloc did not return is excluded, as the source demands.
- Frames.Memory.Freerange: the range lies in the kernel's direct map of physical memory, as its two callers' does.
- VirtualMemory.Mappages: the range is not empty, does not pass the end of the address space, and is not mapped yet (the source panics or would wrap around).
- VirtualMemory.Deallocuvm: oldsz is at most KERNBASE, as in every call; frames above belong to no address space.
- VirtualMemory.Freevm: the address space owns its frames alone; the initial kernel page table and TLB effects are not modelled.
- Pbs.WaitIsBounded: ticks are unbounded integers; wrap-around of the tick counter is not modelled.
- MlfqRuns.RunInvariant: the runs are those whose steps meet the exact conditions of MlfqRuns.StepExactly.
- clearpteu, loaduvm, inituvm, uva2ka and copyout would only add easy members.
