# xv6 with AC97 audio: verified models

This project models the parts of the kernel, of `mkfs` and of two user programs
whose correctness is hardest to see from the code, and proves what those parts
are for. Loops and updates in place are methods of classes whose contracts tie
each call to a function of the state before it; the invariants, the whole-run
theorems and the exact conditions are lemmas about those functions.

Where the main results are:

- **Redo log** (`LogSpec`, `LogTorn`, `LogRuns`, `Log`, `LogSpace`). The disk is
  a sequence of blocks, and a commit or a recovery is an ordered list of block
  writes. A run interleaves operations with the single writes of a commit; power
  may fail between any two writes or in the middle of one, also inside recovery,
  again and again. `LogRuns.CrashAtomicity`: after any such run a reboot finds
  exactly the home blocks of some earlier boundary between groups of operations,
  after which no group had committed. `Log.RedoLog` is the code; its methods take
  exactly the steps of those runs. `LogSpace.PanicUnreachableIff` gives the budget
  per operation at which "too big a transaction" cannot happen, over the same
  runs, and `FileBlocks.ChunksFitLog` applies it to `filewrite`.
- **Buffer cache** (`BufferList`, `BufferCache`). Linked list, reference counts,
  pins and least-recently-used order refine a map from block to contents.
- **File system** (`FsSpec`, `FileSpec`, `FileBlocks`, `Mkfs`, `MkfsLinks`). The bitmap is
  exactly metadata plus blocks held once; files refine byte sequences; every
  file is free of holes, so reading never allocates and every chunk of
  `filewrite` fits the log; copies that fail partway are part of the model. What a
  write or a truncation changes on the disk, it logs.
  `Mkfs.MakeDisk` is the run of `mkfs` with the constants of the repository: it
  finishes exactly if there is room, the files it then keeps are exactly those
  with inodes below 1024, and with at most 1022 files the image is valid and the
  kernel starts on it (`FileBlocks.Boot`, `MkfsLinks.MakeDirectories`).
- **Link counts** (`LinkSpec`, `LinkCounts`). `nlink` is the number of names in
  linked directories, over `create`, both halves of `sys_link`, `sys_unlink`
  and `iput`; and what each of them does to directories as tables from names to
  inodes.
- **Sv39 page tables and page allocator** (`PageSpec`, `Kalloc`, `PageTable`,
  `UserCopy`, `UserSpace`), after section 4.4 of the RISC-V privileged architecture: the
  three-level tree is a flat map, pages are conserved on every path including
  all failures, and page-wise copies equal byte-wise ones. After `fork` the child
  reads what its parent had (`UserSpace.ForkReadsSame`).
- **Processes** (`SleepLock`, `ExitWait`, `RingIndex`, `Pipe`). Interleaved steps of any
  number of processes: no lost wakeup, correct reaping, when `wait`, `exit`,
  `fork` and `acquiresleep` return and with what, a FIFO through counter wrap.
- **Virtio disk** (`VirtioRing`, `VirtioSpec`, `VirtioRuns`, `VirtioDisk`), after
  sections 2.6 and 5.2 of the virtio specification, version 1.1: descriptors are
  partitioned, rings never overwrite, and in every run each request is served
  once, as asked, before its caller goes on (`VirtioRuns.RequestServed`).
- **Sound queue** (`SoundSpec`, `SoundQueue`): bytes played, queued and pending
  are the bytes written, padded at each finish, under any schedule of interrupts;
  what is heard instead after a late call is stated exactly.
- **Heap** (`HeapSpec`, `Umalloc`): a tiled arena and an ordered ring, over `malloc`
  and `free`.
- **Shell parser** (`ShellSpec`, `ShellRoundTrip`, `ShellGrammar`, `Shell`,
  `ShellOrder`): it accepts exactly the sentences of a grammar that is written
  down apart from it, and gives their meaning (`ShellGrammar.ParsesLanguage`).

Things that turned out false of the code, each kept as the code has it and
given its exact condition:

- With the full budget of `MAXOPBLOCKS` per operation, `log_write` can reach its
  panic: `begin_op` counts 30 blocks, `log_write` allows 29
  (`LogSpace.PanicUnreachableIff`).
- `mkfs` does not test the number of inodes. Those past the blocks of inodes go
  to the bitmap block, which the bitmap then overwrites: with 1023 files the run
  finishes and the last file is lost (`Mkfs.LosesLastFile`). A finished image
  keeps every file if and only if there are at most 1022 (`Mkfs.MakeDisk`).
- `mkfs` leaves the root directory with a hole exactly if its entries end on a
  block boundary, that is if 2 plus the number of files is a multiple of 2048
  (`Mkfs.BuildImage`, with an instance in `Mkfs.FullRootHasHole`). An image with
  one block of inodes that keeps all its files is far from that.
- `mkfs` does not look at the names of the files: the link counts of its disk are
  right if and only if no two names are equal as far as they are kept, and none
  is a dot (`MkfsLinks.ImageLinks`).
- `malloc` of more than 2^31 - 32 bytes does not survive the `int` parameter of
  `sbrk` (`Umalloc.RequestReachesSbrk`, outcome `Overrun` of `Malloc`).
- The sector of a block is a 32-bit product, so two block numbers share a sector
  exactly if they differ by a multiple of 2^25 (`VirtioSpec.SectorsShared`).
- A writer killed behind its first byte returns from `pipewrite` without waking
  readers (`Pipe.KilledWriterLeavesReaderAsleep`; `WriteCalm` has the exact
  condition on the call's inputs).
- `create` and `sys_link` into a directory that has itself been unlinked leave a
  count wrong (`LinkCounts.UnlinkedParentMiscounts`; exact in `EnteredNeedsLinked`,
  `MadeDirNeedsLinked`, `Create` and `LinkEnd`).
- `sys_finishWriteAudio` does not reset `used_size`. A write after it adds exactly
  its data to what is heard if and only if no finish has sent the node being
  filled (`SoundSpec.Card.WriteNeedsOpen`). If that node is still queued, the data
  takes the place of its padding, and nothing is lost or repeated
  (`SoundQueue.LateWriteInPlace`); if it has been played, all it held is heard
  again before the data (`SoundQueue.LateWriteRepeats`). Where the queued node has
  to be sent again, by such a write or by a second finish, it becomes its own
  successor: the device plays it for ever, and the next `add_sound_node` does not
  end (`SoundQueue.SecondFinishLoops`, `SoundSpec.InterruptsForever`,
  `SoundSpec.AddNeverEnds`).
- `copyout` then `copyin` returns the bytes exactly if no two bytes of the range
  share memory (`UserCopy.RoundTrip`, `UserCopy.RoundTripNeeds`); the pages of a
  process never do (`UserSpace.ProcessRoundTrip`).

The documentation in `kernel/fs.h` promises files of `MAXFILE` blocks, with a
double-indirect level; `bmap` has only the direct and single-indirect ones, and
the model follows `bmap` (`FsSpec.REACH`).

## Model

| member | source | states |
|---|---|---|
| LogSpec.PutHeader | kernel/log.c:103-114 | the header block then names the list, and its other words stay |
| LogSpec.InstallKeepsLog | kernel/log.c:69-83 | installing any number of slots changes no slot, no header and no block that is not listed |
| LogSpec.RecoveredAt | kernel/log.c:117-123 | after recovery a home block is the slot that stands for it, or unchanged if none does |
| LogSpec.SameLogSameRecovery | kernel/log.c:117-123 | recovery depends only on the log region and on blocks it does not name |
| LogSpec.RecoveryClears | kernel/log.c:117-123 | a recovery that ends leaves an empty header |
| LogSpec.RecoveryRestartable | kernel/log.c:117-123 | a recovery cut after any number of its writes, then run again, ends with the same home blocks |
| LogSpec.LoggingKeepsHome | kernel/log.c:179-191 | writing any number of slots changes no home block and not the header |
| LogSpec.HeadedDiskRecovers | kernel/log.c:103-123 | from the header write on, recovery yields the whole group of updates |
| LogSpec.CommitSuffix | kernel/log.c:194-203 | after its header write, a commit does step for step what a recovery would do |
| LogSpec.CommitAtomic | kernel/log.c:194-203 | a commit cut after k writes recovers to all of the group or to none of it, by whether the header was written |
| LogSpec.CommitComplete | kernel/log.c:194-203 | a commit that ends has installed the group and emptied the header |
| LogTorn.TornHeader | kernel/log.c:103-114 | a header write of which any sectors reached the disk is the old header or the new one: the list fits one sector |
| LogTorn.RecoveryTorn | kernel/log.c:69-123 | a recovery whose last write is torn, then run again, ends with the same home blocks |
| LogTorn.CommitTorn | kernel/log.c:179-203 | a commit whose last write is torn recovers to none of the group before the header, to all of it after, and to one of the two if it tore the header |
| LogRuns.StepRefines | kernel/log.c:127-235 | every step of the log, single writes of a commit and torn writes included, is a step of a file system whose groups of operations become durable at once |
| LogRuns.PowerFailRefines | kernel/log.c:147-203 | power that fails at any point of a commit, also inside a write, leaves the group durable as a whole or not at all |
| LogRuns.RecoveryCrashRefines | kernel/log.c:55-123 | power that fails at any point of a recovery changes nothing durable |
| LogRuns.ViewStands | kernel/log.c:179-203 | no write of a commit changes what readers of home blocks see |
| LogRuns.CommitStretch | kernel/log.c:194-203 | any number of the writes of a commit, one after the other, are steps of a run |
| LogRuns.RunRefines | kernel/log.c:127-235 | every run has a run of that file system beside it |
| LogRuns.DurableIsABoundary | kernel/log.c:147-175 | what is durable is what the system held at a boundary between groups, with no commit since |
| LogRuns.RebootReads | kernel/log.c:55-65 | a reboot brings up exactly the durable files |
| LogRuns.CrashAtomicity | kernel/log.c:69-203 | over all runs, with power failures between and inside block writes and inside recovery, a reboot comes up at a boundary between groups after which none committed |
| Log.RedoLog.constructor | kernel/log.c:55-65 | initlog recovers whatever valid disk it finds, and is the reboot step of the runs |
| Log.RedoLog.ReadHead | kernel/log.c:87-97 | the in-memory list becomes the one the header names |
| Log.RedoLog.Bwrite | kernel/log.c:69-114 | one block on disk and in the cache; if it is the next write of the commit under way, it is that step of the runs |
| Log.RedoLog.WriteHead | kernel/log.c:103-114 | exactly one write, of the header that carries the in-memory list |
| Log.RedoLog.InstallTrans | kernel/log.c:69-83 | the writes of its loop, in order, are the slots to their home blocks; cache and disk then agree |
| Log.RedoLog.WriteLog | kernel/log.c:179-191 | the writes of its loop, in order, are the cached blocks to the slots |
| Log.RedoLog.RecoverFromLog | kernel/log.c:117-123 | its writes are exactly those of the specification, and the list is empty after |
| Log.RedoLog.Commit | kernel/log.c:194-203 | its writes are exactly CommitWrites, together a stretch of the runs from the state before to the state after, and it ends with the group installed |
| Log.RedoLog.TryBeginOp | kernel/log.c:127-142 | also during a commit: admits an operation exactly if nothing commits and a full budget per operation still fits, else changes nothing |
| Log.RedoLog.LogWrite | kernel/log.c:215-235 | succeeds exactly if neither panic applies; absorbs a listed block, appends any other; is an update step of the runs |
| Log.RedoLog.EndOp | kernel/log.c:147-164 | counts down; the last operation, and only it, starts a commit; the panic on a commit under way cannot happen |
| Log.RedoLog.EndCommit | kernel/log.c:166-174 | once all writes of the commit are done the log is open again; is the done step of the runs |
| Log.SlotWrite | kernel/log.c:179-191 | no slot written so far is the next block to be copied |
| Log.InstallEqualisesAt | kernel/log.c:69-83 | after installing, cache and disk agree on every block |
| LogSpace.ReservationHolds | kernel/log.c:127-175 | at every point of every run of the log, in which operations keep to their budgets, the list plus all unused budgets stays within the reservation |
| LogSpace.FullBudgetFitsLog | kernel/log.c:127-235 | with MAXOPBLOCKS per operation, the list of the log plus all that may still be logged never exceeds LOGSIZE |
| LogSpace.NeverTooBig | kernel/log.c:215-223 | with a smaller budget, whenever an operation may log a block, log_write has room and an operation is open |
| LogSpace.OperationIsFair | kernel/log.c:127-235 | an operation may log the blocks of its budget in any order and as often as it likes, at any point of any fair run: the run goes on, fair and without the panic |
| LogSpace.PanicUnreachableIff | kernel/log.c:215-223 | in a log of LOGSIZE blocks no run reaches the panic if and only if the budget is below MAXOPBLOCKS |
| BufferList.PushKeepsLinked | kernel/bio.c:46-52 | linking a buffer in behind the head keeps one circular doubly linked list, with it in front |
| BufferList.UnlinkKeepsLinked | kernel/bio.c:128-129 | taking a buffer out keeps the list of the others in order |
| BufferCache.Cache.constructor | kernel/bio.c:37-53 | all buffers are in one circular list, none in use |
| BufferCache.Cache.FindCached | kernel/bio.c:65-73 | the walk along next finds the block's buffer if there is one |
| BufferCache.Cache.FindUnused | kernel/bio.c:77-87 | the walk along prev finds, of the buffers not in use, the one free longest |
| BufferCache.Cache.Bget | kernel/bio.c:59-89 | panics exactly if the block is not cached and all buffers are in use, for which pins and handles must number nbuf; else counts one user more, of the cached buffer or of the one free longest |
| BufferCache.PanicNeeds | kernel/bio.c:59-89 | if all buffers are in use, logged blocks and handles of processes are together at least as many as buffers |
| BufferCache.Cache.LockAndRead | kernel/bio.c:93-103 | the buffer then holds what the block map holds: the last logged value, or the disk's |
| BufferCache.Cache.LogWrite | kernel/log.c:215-235 | scans the list for the block; the block map takes the data, and the buffer is pinned exactly once while logged |
| BufferCache.Cache.Bwrite | kernel/bio.c:107-112 | disk and block map both take the buffer's data |
| BufferCache.Cache.Bunpin | kernel/bio.c:147-151 | the block is no longer logged; the holder still keeps its buffer in use |
| BufferCache.Cache.ReleaseSleep | kernel/bio.c:117-122 | the sleep lock is free while the process still counts as a user |
| BufferCache.Cache.DropReference | kernel/bio.c:124-137 | one user less; the last one moves the buffer to the front, and no other buffer moves |
| BufferCache.Cache.MoveToFront | kernel/bio.c:128-133 | the six assignments to links give the list with the buffer in front |
| BufferCache.OldestFree | kernel/bio.c:77-87 | the free buffer nearest the tail is the one that became free longest ago |
| BufferCache.ReleaseKeepsLru | kernel/bio.c:117-137 | moving a freed buffer to the front keeps the order of release |
| BufferCache.Contents.OnlyOne | kernel/bio.c:59-89 | a logged block is in the pinned buffer and in no other |
| BufferCache.Contents.RecycleKeeps | kernel/bio.c:77-87 | recycling takes no pinned buffer and no block gets a second buffer |
| BufferCache.Contents.FillKeeps | kernel/bio.c:93-103 | a block read from disk is not logged, so the disk has its current contents |
| FsSpec.Fs.AllocatedKeeps | kernel/fs.c:65-86 | a free block is neither metadata nor held by any file; once balloc has marked it the bitmap is still exact and no file has changed |
| FsSpec.Fs.AllocTop | kernel/fs.c:383-393 | a new block in an empty inode slot keeps the bitmap exact and every file's contents |
| FsSpec.Fs.AllocFar | kernel/fs.c:394-401 | likewise for a new entry of the indirect block |
| FsSpec.Fs.WithDataKeeps | kernel/fs.c:497-506 | data stored in a held block changes that block of that file and no other block of any file |
| FsSpec.Fs.WithoutTopKeeps | kernel/fs.c:416-421 | a freed slot's block was marked in use, and ownership stays exact |
| FsSpec.Fs.WithoutFarKeeps | kernel/fs.c:423-433 | likewise for an entry of the indirect block |
| FileSpec.FreesExactly | kernel/fs.c:410-437 | of the bits, exactly those of the inode's own blocks are cleared |
| FileSpec.WritingMore | kernel/fs.c:497-506 | a block more of a write extends the patch of the file by exactly its bytes |
| FileSpec.Written | kernel/fs.c:508-514 | after the size is set to what was written, every block below it is there, also if the copy stopped early |
| FileSpec.ReadsBack | kernel/fs.c:456-517 | a read after a write gives the written bytes inside the range and the old ones around it |
| FileSpec.OthersReadTheSame | kernel/fs.c:487-517 | a write changes nothing that any other file reads |
| FileSpec.SplicesTwice | kernel/file.c:157-174 | two adjoining chunks are one long write |
| FileSpec.ChunkFits | kernel/file.c:155-167 | a chunk logs at most MAXOPBLOCKS blocks even if every allocation hits another bitmap block |
| FileSpec.ChunkFitsOneBitmap | kernel/file.c:155-167 | with a single bitmap block a chunk logs at most seven |
| FileSpec.RootSizeRounded | mkfs/mkfs.c:163-168 | rounding the directory's size leaves no hole if and only if its entries do not end on a block boundary |
| FileBlocks.FileSystem.constructor | kernel/fs.c:42-47 | the kernel takes over any valid image as it is |
| FileBlocks.Boot | mkfs/mkfs.c:68-172 | the kernel starts on every image that mkfs finishes with at most 1022 files: valid, laid out behind the log, with one bitmap block, holding exactly the files and the directory that names them |
| FileBlocks.FileSystem.Balloc | kernel/fs.c:65-86 | the first free block, marked and zeroed, or its panic exactly if none is free; which blocks it logs |
| FileBlocks.FileSystem.Bfree | kernel/fs.c:90-103 | clears the bit of a block in use |
| FileBlocks.FileSystem.Bmap | kernel/fs.c:378-405 | the address at the block's place; allocates only if there was none, changes no contents; every block and bit it changes is logged, and how many blocks it logs at most |
| FileBlocks.FileSystem.Itrunc | kernel/fs.c:410-437 | the file holds nothing, exactly its blocks are free again, all other files read the same; bfree never meets a free block; every bit it changes and the inode are logged, and with one bitmap block nothing else |
| FileBlocks.FileSystem.Readi | kernel/fs.c:456-477 | the file's bytes from off, as many as there are, or -1 exactly if the copy fails in a turn of the loop; the disk and the log are untouched |
| FileBlocks.FileSystem.WriteBlock | kernel/fs.c:497-506 | one turn of the loop writes its bytes, or those copied before a fault, into their block; all it changes is logged, but for the block of a copy that failed, for which nothing is logged if it was there before |
| FileBlocks.FileSystem.Writei | kernel/fs.c:487-517 | refused exactly by its first guard; else src is spliced in at off, or the part copied before a fault, reported up to the last full turn; the size follows the report, all else is unchanged and the image valid; every block and bit that changed and the inode are logged, but for the block of the failed copy, and no other inode has changed; after a panic ownership is exact |
| FileBlocks.FileSystem.FileWrite | kernel/file.c:155-175 | the bytes reported are a prefix spliced in; short only by refusal, a failed copy, a full disk or the end of the block map; ownership is exact in every case |
| FileBlocks.FileSystem.WriteChunk | kernel/file.c:155-167 | one transaction logs everything that the write changes, but for the block of a failed copy, and at most MAXOPBLOCKS blocks; with one bitmap block at most seven, all of them inode, bitmap or data blocks |
| FileBlocks.ChunksFitLog | kernel/file.c:155-175 | the blocks that WriteChunk leaves logged are those of a fair operation with a budget of seven: logged in any order in any fair run, log_write does not panic |
| FileBlocks.GuardNeverRefuses | kernel/fs.c:494-495 | the guard against MAXFILE blocks refuses no 32-bit size |
| Mkfs.Image.constructor | mkfs/mkfs.c:92-116 | the cleared image is valid |
| Mkfs.Image.Ialloc | mkfs/mkfs.c:221-232 | inodes are handed out in order, empty, without regard to the end of the blocks of inodes |
| Mkfs.Image.Place | mkfs/mkfs.c:267-285 | the block's address, with exactly the blocks taken that were missing; no other place of any file gains a block |
| Mkfs.Image.AppendBlock | mkfs/mkfs.c:265-292 | one turn of the loop appends its bytes, takes exactly the blocks they need and leaves none behind the file's end |
| Mkfs.Image.Iappend | mkfs/mkfs.c:253-295 | exactly the bytes follow those the file had, other files are unchanged, ownership is exact and no file has a hole; the blocks taken are the difference in what the lengths cost, and it stops exactly if there are not so many |
| Mkfs.Image.AddFile | mkfs/mkfs.c:150-158 | one file more: an inode, its entry behind those of the root, its bytes, and all others as they were; the blocks it takes |
| Mkfs.Image.Balloc | mkfs/mkfs.c:235-248 | fails exactly if as many blocks are used as one bitmap block has bits, or more; else exactly the first bits are set |
| Mkfs.Image.Finish | mkfs/mkfs.c:163-170 | the bitmap has exactly the used blocks; ownership is exact, the files are the same, and there is no hole if and only if the root directory does not end on a block boundary |
| Mkfs.BuildImage | mkfs/mkfs.c:92-172 | the whole run for any sizes and files: it finishes if and only if there is room; the files kept are exactly those with inodes in the blocks of inodes; if all are, the image holds them and the directory that names them, and is valid if and only if 2 plus the number of files is no multiple of BSIZE/32 |
| Mkfs.MakeDisk | mkfs/mkfs.c:18-172 | with FSSIZE = 1000 and one block of inodes: finishes if and only if the blocks suffice and the inodes end in the bitmap block; keeps every file if and only if there are at most 1022, and is then valid |
| Mkfs.BitmapIsNoFile | mkfs/mkfs.c:235-248 | no part of the bitmap, read as an inode, is a file: its first bits are the ones set |
| Mkfs.LosesLastFile | mkfs/mkfs.c:130-170 | 1023 empty files: the run finishes and keeps all but the last |
| MkfsLinks.EntryBack | mkfs/mkfs.c:152-155 | an entry that mkfs writes is read as its inode and its name, cut to DIRSIZ |
| MkfsLinks.ImageLinks | mkfs/mkfs.c:117-168 | the directories and link counts on a finished image are right if and only if the names of the files are good |
| MkfsLinks.MakeDirectories | mkfs/mkfs.c:18-172 | likewise for the run of mkfs with its own constants |
| Mkfs.FullRootHasHole | mkfs/mkfs.c:130-168 | 2046 empty files, with blocks of inodes for them: the image is finished, keeps them all, and has the hole that rounding leaves |
| LinkSpec.Fs.NamedHasLinks | kernel/fs.c:333-358 | an inode that a linked directory names has a positive count |
| LinkSpec.Fs.EmptyHasOneLink | kernel/sysfile.c:170-182 | an empty directory has its name as its only link |
| LinkSpec.Fs.CountedKeeps | kernel/sysfile.c:120-166 | promising a link and taking it back keep all counts |
| LinkSpec.Fs.EnteredKeeps | kernel/sysfile.c:145-152 | a promised link entered in a linked directory keeps all counts |
| LinkSpec.Fs.EnteredNeedsLinked | kernel/sysfile.c:145-152 | and does so if and only if the directory is linked |
| LinkSpec.Fs.LeftKeeps | kernel/sysfile.c:218-229 | an erased entry for a file keeps all counts |
| LinkSpec.Fs.MadeDirKeeps | kernel/sysfile.c:261-283 | a new directory with its dots, its name and the parent's count keep all counts |
| LinkSpec.Fs.MadeDirNeedsLinked | kernel/sysfile.c:247-283 | and do so if and only if the parent is linked |
| LinkSpec.Fs.HolderStaysLinked | kernel/sysfile.c:218-229 | removing an empty directory leaves its parent linked |
| LinkSpec.Fs.RemovedKeeps | kernel/sysfile.c:218-229 | removing an empty directory keeps all counts |
| LinkSpec.Fs.FreedKeeps | kernel/fs.c:333-358 | an inode that iput frees is named by no linked directory; it is free then, and every other inode is as it was |
| LinkSpec.Fs.EnteredEnters | kernel/sysfile.c:145-152 | the entry that sys_link writes gives its directory exactly that name more, and changes nothing else |
| LinkSpec.Fs.BornCreates | kernel/sysfile.c:257-278 | create of a file or device: an inode of that kind with one link, whose only new name is the one asked for |
| LinkSpec.Fs.MadeDirCreates | kernel/sysfile.c:257-283 | mkdir: a directory with its dots and one link, its name in the parent, and a link more for the parent |
| LinkSpec.Fs.RemovedUnlinks | kernel/sysfile.c:218-229 | removing a directory takes exactly its name away, and a link from it and from its parent |
| LinkSpec.Fs.LeftUnlinks | kernel/sysfile.c:218-229 | unlinking a file takes exactly that name away, and a link from the file |
| LinkSpec.FirstDiskValid | mkfs/mkfs.c:117-161 | a root that names files once each has right counts if and only if the names are good |
| LinkCounts.Directories.constructor | kernel/fs.c:42-47 | the kernel takes over any disk whose counts are right |
| LinkCounts.Directories.DirLookup | kernel/fs.c:530-553 | an entry with the name, as far as DIRSIZ keeps it, or none has it |
| LinkCounts.Directories.DirLink | kernel/fs.c:557-583 | fails exactly if the name, cut to DIRSIZ, is taken; else fills the first free entry or appends one |
| LinkCounts.Directories.Ialloc | kernel/fs.c:196-215 | the first free inode below ninodes, or its panic exactly if none is free there |
| LinkCounts.Directories.Create | kernel/sysfile.c:242-284 | in any directory: which of the four outcomes applies; what is made has the kind asked for, one link and the name, and nothing else has changed but the link of a new directory's parent; counts stay right if and only if nothing new goes to an unlinked directory |
| LinkCounts.Directories.LinkBegin | kernel/sysfile.c:134-143 | a link is promised to anything but a directory |
| LinkCounts.Directories.LinkEnd | kernel/sysfile.c:145-166 | in any directory: enters the name and nothing else, or undoes the promise completely; counts stay right if and only if the name does not go to an unlinked directory |
| LinkCounts.Directories.Link | kernel/sysfile.c:120-166 | both halves in a row: exactly one name and one link more, or nothing at all; when it succeeds |
| LinkCounts.Directories.IsDirEmpty | kernel/sysfile.c:170-182 | true if and only if nothing is behind the dots |
| LinkCounts.Directories.Unlink | kernel/sysfile.c:185-239 | in any directory: exactly the name goes and a link with it, and all counts stay right; fails only for dots, a missing name or a directory that is not empty, and then changes nothing |
| LinkCounts.Directories.Iput | kernel/fs.c:333-358 | the last holder makes the inode free exactly if its count is zero, and then no linked directory names it; every other inode is as it was |
| LinkCounts.Directories.UnlinkLast | kernel/sysfile.c:185-239 | unlink, its iput and the next ialloc: the inode is free if and only if that was its last link and nobody else holds it, and ialloc then finds it or one before it |
| LinkCounts.UnlinkedParentMiscounts | kernel/sysfile.c:145-283 | mkdir, rmdir and then create or link in the directory removed: a state that operations reach and that has a wrong count |
| PageSpec.IndicesDetermine | kernel/riscv.h:355-363 | different pages have different index triples |
| PageSpec.TranslateIsLeaf | kernel/vm.c:90-107 | the walk through the three levels in memory is a lookup in the flat map |
| PageSpec.Space.WithNodeKeeps | kernel/vm.c:100-103 | a new zeroed table entered in its parent keeps the tree exact |
| PageSpec.Space.StoredKeeps | kernel/vm.c:157-167 | storing one leaf entry changes the flat map at that page only |
| PageSpec.Space.Frame | kernel/vm.c:90-107 | only the pages a space owns matter to it |
| Kalloc.PushFree | kernel/kalloc.c:47-63 | the freed page heads the list |
| Kalloc.PopFree | kernel/kalloc.c:69-82 | the page taken is in the list no more |
| PageTable.Memory.constructor | kernel/kalloc.c:27-40 | all pages of the range are free, once each |
| PageTable.Memory.FreeRange | kernel/kalloc.c:34-40 | exactly the pages of the range become free |
| PageTable.Memory.Kalloc | kernel/kalloc.c:69-82 | the first free page, filled with junk, or none exactly if the list is empty |
| PageTable.Memory.Kfree | kernel/kalloc.c:47-63 | the page heads the free list and is handed out no more |
| PageTable.Memory.Walk | kernel/vm.c:90-107 | the table that holds the page's entry; new tables change no mapping; fails only without memory, and without alloc changes nothing |
| PageTable.Memory.WalkAddr | kernel/vm.c:113-130 | the physical page exactly if the page is below MAXVA, mapped and a user page |
| PageTable.Memory.MapOne | kernel/vm.c:147-169 | one page more in the flat map, and nothing else |
| PageTable.Memory.MapPages | kernel/vm.c:147-169 | exactly the pages of the range are mapped, in order; on failure exactly the first k, and memory is exhausted |
| PageTable.Memory.UvmUnmap | kernel/vm.c:175-196 | exactly the n pages go, each freed once if asked; pages that are not to be freed only stop being the space's |
| PageTable.Memory.UvmCreate | kernel/vm.c:201-209 | an empty space, or nothing changed |
| PageTable.Memory.UvmAlloc | kernel/vm.c:230-253 | all pages up to the new size, zeroed, owned and below MAXVA; on failure the old mapping is restored, pages are conserved, and no more pages are free then than were asked for; panics only for a size beyond MAXVA |
| PageTable.Memory.UvmDealloc | kernel/vm.c:260-271 | exactly the whole pages between the two sizes go, and all are free again |
| PageTable.Memory.FreeWalk | kernel/vm.c:276-291 | returns every table page of the subtree, and no other page |
| PageTable.Memory.UvmFree | kernel/vm.c:296-301 | every page the space owned is free again, and no other |
| PageTable.Memory.UvmCopy | kernel/vm.c:310-337 | the child has its own copy of every page with the parent's permissions; on failure it has none of them, pages are conserved, and no more pages are free then than were asked for; the parent is unchanged |
| PageTable.Memory.UvmClear | kernel/vm.c:342-350 | one page loses user access, nothing else changes |
| PageTable.OtherKeeps | kernel/vm.c:310-337 | what one address space does leaves every other one as it was |
| PageTable.LossConserves | kernel/vm.c:184-195 | a page a space gives up is free, and no page is lost |
| UserCopy.FetchPage | kernel/vm.c:381-400 | within a page, a block copy fetches what single bytes would |
| UserCopy.StorePage | kernel/vm.c:356-375 | within a page, a block copy stores what single bytes would |
| UserCopy.UserMemory.CopyIn | kernel/vm.c:381-400 | succeeds exactly if every byte translates, with the bytes of a byte-wise copy; else stops at the first page that does not |
| UserCopy.UserMemory.CopyOut | kernel/vm.c:356-375 | likewise for stores |
| UserCopy.UserMemory.CopyInStr | kernel/vm.c:407-443 | the string up to its first NUL, exactly if that is within max bytes and reachable |
| UserCopy.EndIsFirst | kernel/vm.c:407-443 | the NUL found is the first |
| UserCopy.RoundTrip | kernel/vm.c:356-400 | what is copied out comes back if no two bytes of the range share memory |
| UserCopy.RoundTripNeeds | kernel/vm.c:356-400 | and otherwise some bytes do not |
| UserSpace.ViewIsWalk | kernel/vm.c:113-130 | the pages that user copies go through are exactly those for which the walk through the page table passes the tests of walkaddr |
| UserSpace.ViewBacked | kernel/vm.c:230-253 | each of them has contents, in the process's own memory |
| UserSpace.ViewInjective | kernel/vm.c:356-400 | no two addresses of a process share memory |
| UserSpace.ProcessRoundTrip | kernel/vm.c:356-400 | what copyout gives a process, copyin takes back |
| UserSpace.CopyOutKeeps | kernel/vm.c:356-375 | what copyout stores leaves the page table of the process as it was |
| UserSpace.NewPageIsZero | kernel/vm.c:230-253 | a page that uvmalloc adds can be read, written, executed and used by the process, and is zero |
| UserSpace.NewMemoryIsZero | kernel/vm.c:230-253 | copyin from anywhere in the memory that uvmalloc has added succeeds and gives zeros |
| UserSpace.CopiedPage | kernel/vm.c:310-337 | after uvmcopy the child may use exactly the pages that the parent may, and they have the same bytes |
| UserSpace.ForkReadsSame | kernel/vm.c:310-337 | copyin from any range succeeds for the child if and only if it did for the parent, with the same bytes |
| SleepLock.State.StepKeeps | kernel/sleeplock.c:22-41 | every step of every process keeps the invariant |
| SleepLock.State.KillKeeps | kernel/proc.c:579-597 | so does waking a killed sleeper |
| SleepLock.NoLostWakeup | kernel/proc.c:529-573 | in every state of every run, with the spinlock free and the lock not held nobody sleeps on it, and at most one process holds it |
| SleepLock.AcquireOutcome | kernel/sleeplock.c:22-31 | in every state of every run: acquiresleep gets the lock exactly when it finds that no process has it, and otherwise goes to sleep |
| SleepLock.ReleaseOutcome | kernel/sleeplock.c:33-41 | after releasesleep no process has the lock |
| SleepLock.SleepsBetween | kernel/proc.c:529-555 | a process that found the lock taken does not try again before it has been asleep |
| ExitWait.State.WakeKeeps | kernel/proc.c:560-573 | waking a process, by wakeup or kill, keeps the invariant |
| ExitWait.State.SleptKeeps | kernel/proc.c:529-555 | going to sleep in wait leaves no unnoticed zombie |
| ExitWait.State.BuriedKeeps | kernel/proc.c:366-374 | becoming a zombie happens after the parent was woken under wait_lock |
| ExitWait.State.ReapKeeps | kernel/proc.c:395-414 | a reaped zombie was not reaped before, and its status is the one it exited with |
| ExitWait.State.AdoptedKeeps | kernel/proc.c:324-334 | giving a child to init keeps every parent alive |
| ExitWait.State.FatheredKeeps | kernel/proc.c:310-312 | setting a child's parent in fork keeps the invariant |
| ExitWait.State.StepKeeps | kernel/proc.c:273-428 | every step of fork, also one that fails, of exit, wait, sleep and wakeup keeps the invariant |
| ExitWait.NoZombieUnnoticed | kernel/proc.c:324-428 | in every state of every run, with wait_lock free, no process asleep in wait has a zombie child, every parent is alive and every zombie has one |
| ExitWait.ReapedAsExited | kernel/proc.c:384-428 | every status that wait reported is the one its child exited with |
| ExitWait.ReapedOnce | kernel/proc.c:384-428 | a step of any run changes no status already reported, and reports a new one only for a child that has exited, with its status |
| ExitWait.WaitReturns | kernel/proc.c:384-428 | in every run: wait returns only with the status of a child, after a kill or a failed copy, or if the process has no child; at the end of a scan it sleeps if and only if there is a child, and then none is a zombie |
| ExitWait.SleepsBetween | kernel/proc.c:423-427 | a process that found children but no zombie does not scan again before it has been asleep |
| ExitWait.ExitIsFinal | kernel/proc.c:340-378 | in every run: from its call of exit on, a process is in exit or a zombie with the status it gave, until its parent has been told that status |
| ExitWait.ForkStarts | kernel/proc.c:273-322 | in every run: when fork returns to its caller, the child runs, has the caller as its parent and a pid that no other process has and none that exited had |
| RingIndex.SlotOf | kernel/pipe.c:95 | a ring whose size divides the range of its counters has the same slot for a counter and its wrapped value |
| RingIndex.SlotsDiffer | kernel/virtio_disk.c:259-265 | fewer than size entries apart, two entries have different slots |
| RingIndex.CountersTell | kernel/pipe.c:88-90 | wrapped counters compare equal, with an offset, exactly if the counts are that far apart |
| Pipe.PutKeeps | kernel/pipe.c:91-96 | a byte stored overwrites none that is still to be read |
| Pipe.GetKeeps | kernel/pipe.c:120-126 | a byte taken is the oldest one |
| Pipe.Tests | kernel/pipe.c:77-130 | bytes taken are a prefix of bytes put, at most PIPESIZE apart, and both tests mean what they say |
| Pipe.PipeBuffer.Write | kernel/pipe.c:77-103 | how far a call gets, and whether it then returns, fails or sleeps, by what stops it: the end of the data, a closed read end or a kill, a full pipe, a fault; exactly that prefix is put; whom it wakes |
| Pipe.PipeBuffer.Read | kernel/pipe.c:106-130 | the next bytes in order, as many as there are; sleeps only on an empty pipe that can be written |
| Pipe.PipeBuffer.Close | kernel/pipe.c:59-74 | closing an end wakes the sleepers of the other; the pipe is freed exactly when both are closed |
| Pipe.PipeBuffer.WriteCalm | kernel/pipe.c:77-103 | nobody is left asleep wrongly, if and only if not all of these hold: readers sleep, the read end is open, and the writer is killed inside the data, within the room there is and before any fault |
| Pipe.PipeBuffer.ReadCalm | kernel/pipe.c:106-130 | a read leaves nobody asleep wrongly |
| Pipe.KilledWriterLeavesReaderAsleep | kernel/pipe.c:83-87 | a killed writer can leave a reader asleep on a byte it could have |
| VirtioRing.PushKeeps | kernel/virtio_disk.c:259-265 | an entry only goes to a slot whose entry has been taken |
| VirtioRing.PushOverwrites | kernel/virtio_disk.c:259-265 | a ring of NUM pending entries would lose its oldest: the bound is needed |
| VirtioRing.PopKeeps | kernel/virtio_disk.c:300-312 | the reader gets the oldest entry |
| VirtioRing.EmptyIff | kernel/virtio_disk.c:300 | equal indices mean nothing is pending, through the wrap |
| VirtioSpec.SectorsShared | kernel/virtio_disk.c:206 | the sector of a block is where the block begins if and only if its number is below 2^25; two blocks get the same sector if and only if they differ by a multiple of 2^25 |
| VirtioSpec.Queue.DecodesRequest | kernel/virtio_disk.c:223-253 | the chain of an outstanding request, read as the device reads it, is that request |
| VirtioSpec.Queue.OpenedKeeps | kernel/virtio_disk.c:223-265 | a new request keeps descriptors partitioned and has room in the avail ring; the device reads from its chain the direction, the sector and the buffer asked for |
| VirtioSpec.Queue.CompletedKeeps | kernel/virtio_disk.c:283-315 | a completion, of whichever chain, has room in the used ring and keeps the invariant |
| VirtioSpec.Queue.SeenKeeps | kernel/virtio_disk.c:300-312 | the used entry seen is the oldest, of an outstanding request, whose buffer alone is released |
| VirtioSpec.Queue.ClosedKeeps | kernel/virtio_disk.c:276-277 | freeing a settled chain keeps descriptors partitioned: its three are free, its buffer is idle, and every other chain is as it was |
| VirtioRuns.NextKeeps | kernel/virtio_disk.c:190-315 | every step of the driver, of the device and of processes that work on idle buffers keeps the invariant |
| VirtioRuns.DataKept | kernel/virtio_disk.c:204-280 | while a request is outstanding, only the device changes its buffer, and only for that request |
| VirtioRuns.ChainKept | kernel/virtio_disk.c:204-315 | a request stays as it was made until its caller frees it, is returned by one completion, and counts as seen only if its status is 0 |
| VirtioRuns.RequestServed | kernel/virtio_disk.c:204-280 | in every run, from the call of virtio_disk_rw to its return: the request was completed once, without failure, and its block moved between its buffer and its sector as asked; a read gives what the disk held at the call and a write is on the disk at the return, unless another write to that sector was completed |
| VirtioDisk.Disk.AllocDesc | kernel/virtio_disk.c:145-154 | the first free descriptor, or none is free |
| VirtioDisk.Disk.FreeDesc | kernel/virtio_disk.c:158-170 | the descriptor is free and cleared, and waiters are woken |
| VirtioDisk.Disk.AllocThree | kernel/virtio_disk.c:190-201 | three free descriptors, or none taken and fewer than three there |
| VirtioDisk.Disk.Submit | kernel/virtio_disk.c:204-269 | queues the request exactly if three descriptors are free, else the process is among those that wait; the device then reads from the chain exactly the direction, sector and buffer asked for, and all other chains are as they were; is a step of the runs |
| VirtioDisk.Disk.DeviceTake | kernel/virtio_disk.c:259-269 | the device takes the oldest available chain; is a step of the runs |
| VirtioDisk.Disk.DeviceComplete | kernel/virtio_disk.c:283-315 | the device serves any chain it has taken: the data moves as it reads from the descriptors, and nothing else; is a step of the runs |
| VirtioDisk.Disk.Intr | kernel/virtio_disk.c:283-315 | settles exactly the returned chains in order, each once, up to the first failed one, at which it panics |
| VirtioDisk.Disk.FreeChain | kernel/virtio_disk.c:174-185 | the walk along the links frees the three descriptors of the chain, once each |
| VirtioDisk.Disk.Finish | kernel/virtio_disk.c:271-280 | a process that finds its buffer released frees the three descriptors of its own chain, and no other chain changes; is a step of the runs |
| SoundSpec.AppendKeepsChain | kernel/pci.c:212-222 | a node linked behind the last one extends the queue by it |
| SoundSpec.DescriptorsTile | kernel/pci.c:160-180 | the descriptors programmed for a node cover its data exactly, in order |
| SoundSpec.LastAgainLoops | kernel/pci.c:212-222 | the last node queued again becomes its own successor |
| SoundSpec.LoopNeverEnds | kernel/pci.c:212-222 | a walk along such a queue is at a node after any number of steps |
| SoundSpec.InterruptsForever | kernel/pci.c:184-209 | the interrupt handler never comes to the end of such a queue |
| SoundSpec.AddNeverEnds | kernel/pci.c:212-222 | add_sound_node with any other node then never finds null |
| SoundSpec.Card.InterruptKeeps | kernel/pci.c:184-209 | an interrupt changes nothing of what is heard in the end |
| SoundSpec.Card.OverflowKeeps | kernel/sound_card.c:88-93 | completing the current node adds the data, behind what the node held if that had been played |
| SoundSpec.Card.PassOnKeeps | kernel/sound_card.c:95-117 | filling and sending a free node changes nothing of what is heard |
| SoundSpec.Card.FinishKeeps | kernel/sound_card.c:122-128 | sending the remainder adds its zeros; sending it again adds all of it |
| SoundSpec.Card.WriteNeedsOpen | kernel/sound_card.c:79-93 | a write adds exactly its data to what is heard if and only if no finish has sent the node, or it is empty and the node still queued; otherwise it replaces padding, or as many bytes are repeated as the node held |
| SoundSpec.Card.FilledKeeps | kernel/sound_card.c:79-87 | data that fits, in each of the three cases: what is heard then, and the invariant |
| SoundSpec.Card.FinishNeedsOpen | kernel/sound_card.c:122-128 | a finish adds exactly the padding that is due if and only if none has sent the node; otherwise a whole node is repeated |
| SoundSpec.Card.Delivers | kernel/sound_card.c:66-128 | with nothing called late, what has been played is a prefix of what was written, zero-padded at each finish, and all of it once the queue is empty |
| SoundSpec.Card.SpinsOnlyWhenFull | kernel/sound_card.c:95-117 | the search finds no free node if and only if all three are queued |
| SoundQueue.SoundCard.Clear | kernel/sound_card.c:131-140 | a new, empty stream |
| SoundQueue.SoundCard.FindTail | kernel/pci.c:212-222 | the walk ends at the last node of the queue |
| SoundQueue.SoundCard.AddSoundNode | kernel/pci.c:212-222 | the node is last in the queue, the first one starts playing, no data changes; a node that was last already makes the queue endless |
| SoundQueue.SoundCard.Interrupt | kernel/pci.c:184-209 | the first node has been played and is free; no queued node is modified, and what is heard in the end is the same |
| SoundQueue.SoundCard.Write | kernel/sound_card.c:79-93 | in any state between calls: what is heard then; data that fits is kept, else the current node is completed and sent and the rest left to place, or the queue becomes endless exactly if that node was still queued |
| SoundQueue.SoundCard.ScanStep | kernel/sound_card.c:95-117 | one look of the search: pass a node in use, fill and send a free one, or keep the rest in it |
| SoundQueue.SoundCard.Search | kernel/sound_card.c:95-117 | under any schedule of interrupts the search keeps the stream, and it ends if a node is free, or an interrupt frees one, with a round left |
| SoundQueue.SoundCard.SearchEnds | kernel/sound_card.c:95-117 | with a node free, the search ends within one round |
| SoundQueue.SoundCard.WriteDecodedAudio | kernel/sound_card.c:66-120 | in any state between calls and under any schedule of interrupts: what is heard then, how much the current node holds, and that the data is placed if a node is free in time |
| SoundQueue.SoundCard.Finish | kernel/sound_card.c:122-128 | in any state between calls: the remainder, if any, is queued padded with zeros, once more if it had been played, and the queue becomes endless exactly if it was still queued |
| SoundQueue.LateWriteRepeats | kernel/sound_card.c:66-128 | write, finish, interrupt, write: the first data is heard twice |
| SoundQueue.LateWriteInPlace | kernel/sound_card.c:66-128 | write, finish, write: all data in order, then zeros |
| SoundQueue.SecondFinishLoops | kernel/sound_card.c:122-128 | write, finish, finish: a queue without end |
| SoundQueue.SecondFinishRepeats | kernel/sound_card.c:122-128 | write, finish, interrupt, finish: the node is heard twice |
| HeapSpec.InsertKeepsRing | user/umalloc.c:25-44 | a header linked in at its place keeps the ring circular and in address order |
| HeapSpec.RemoveKeepsRing | user/umalloc.c:76-77 | so does unlinking one |
| HeapSpec.MergeKeepsTiles | user/umalloc.c:33-42 | joining touching blocks keeps the arenas tiled |
| HeapSpec.SplitKeepsTiles | user/umalloc.c:78-82 | so does cutting a block |
| HeapSpec.GrowKeepsTiles | user/umalloc.c:47-61 | so does memory from sbrk |
| HeapSpec.Heap.FreedKeeps | user/umalloc.c:25-44 | free keeps the list in order and fully joined, and takes exactly that block from the allocated ones |
| HeapSpec.Heap.TakenKeeps | user/umalloc.c:76-77 | handing out a whole block keeps the heap |
| HeapSpec.Heap.CutKeeps | user/umalloc.c:78-82 | handing out the tail of a block keeps the heap |
| HeapSpec.Heap.StoreKeeps | user/umalloc.c:64-90 | a program that writes inside its block disturbs nothing |
| HeapSpec.CutUntouched | user/umalloc.c:78-82 | the data of blocks that stay allocated is not touched |
| Umalloc.RequestReachesSbrk | user/umalloc.c:47-61 | a request reaches sbrk unharmed if and only if it is at most 2^31 - 32 bytes |
| Umalloc.Allocator.FindPlace | user/umalloc.c:30-32 | the search ends, at the free block behind which bp belongs |
| Umalloc.Allocator.Free | user/umalloc.c:25-44 | exactly bp leaves the allocated blocks; the arenas stay tiled, the list ordered and joined |
| Umalloc.Allocator.Morecore | user/umalloc.c:47-61 | new memory joins the free list with room for the request, or nothing changes |
| Umalloc.Allocator.Scan | user/umalloc.c:74-89 | the search ends, at the first block with room behind freep, if and only if there is one on the ring |
| Umalloc.Allocator.Take | user/umalloc.c:75-85 | a block of exactly the size asked for is allocated, new, and no other block's data is touched |
| Umalloc.Allocator.Malloc | user/umalloc.c:64-90 | which of its outcomes applies; a new block large enough and disjoint from all others; memory grows only if no block had room |
| ShellSpec.Tok | user/sh.c:266-308 | a token lies ahead of the cursor, is not empty before the end, starts at no space, and a word runs to the next space or symbol |
| ShellRoundTrip.WordsParse | user/sh.c:416-446 | printed words parse as those arguments |
| ShellRoundTrip.RedirectParses | user/sh.c:375-413 | a printed redirection of a group parses as that redirection |
| ShellRoundTrip.PipeParses | user/sh.c:362-372 | two printed groups with a bar parse as that pipeline |
| ShellRoundTrip.ListParses | user/sh.c:345-359 | two printed groups with a semicolon parse as that list |
| ShellRoundTrip.BackParses | user/sh.c:345-359 | a printed group with an ampersand parses as that background command |
| ShellRoundTrip.RoundTrip | user/sh.c:328-446 | printing any well-formed command fully parenthesised and parsing it gives the same command |
| ShellGrammar.CommandParses | user/sh.c:400-446 | wherever the tokens of a command of the grammar stand, with whatever space between them, parseexec reads it and its meaning |
| ShellGrammar.PipelineParses | user/sh.c:362-372 | likewise parsepipe for a pipeline, which ends before an ampersand or a semicolon |
| ShellGrammar.LineParses | user/sh.c:345-359 | likewise parseline for a sentence, which ends before a closing parenthesis |
| ShellGrammar.PipelineSpelled | user/sh.c:362-372 | what parsepipe accepts are the tokens of a pipeline, with its meaning: no ampersand and no semicolon outside parentheses |
| ShellGrammar.LineSpelled | user/sh.c:345-359 | what parseline accepts are the tokens of a sentence, with its meaning |
| ShellGrammar.ParsesLanguage | user/sh.c:328-446 | parsecmd accepts a line if and only if its tokens are a sentence of the grammar, and gives what it means: a bar binds tighter than an ampersand, that tighter than a semicolon, bars and semicolons group to the right |
| Shell.GetToken | user/sh.c:266-308 | its loops compute the token of the grammar, for every line and cursor |
| Shell.Peek | user/sh.c:311-320 | moves to the next character that is no space and says whether it is one of those asked for |
| Shell.ParseRedirections | user/sh.c:375-397 | its loop ends and wraps the command in the redirections of the grammar, or panics with it |
| Shell.ParseExecCmd | user/sh.c:416-446 | its loop ends and gives the command of the grammar, arguments stored under the redirections |
| Shell.ParseBlockCmd | user/sh.c:400-413 | terminates with the group of the grammar, or its panics |
| Shell.ParsePipeCmd | user/sh.c:362-372 | terminates with the pipeline of the grammar (ShellGrammar.PipelineParses and PipelineSpelled say which that is) |
| Shell.ParseLineCmd | user/sh.c:345-359 | terminates, on every line, with the command of the grammar (ShellGrammar.LineParses and LineSpelled say which that is) |
| Shell.LineWords | user/sh.c:345-446 | every argument and file name of a parsed command is a whole word of the line, and every word that was read is one of them |
| Shell.WordsAreUsed | user/sh.c:328-446 | the arguments and file names of a parsed line are exactly the words of the line: none is dropped, cut, joined or made up |
| ShellOrder.WordsInOrder | user/sh.c:328-446 | arguments are in the order of the line, redirections from the inside out, and all of a left side is before all of its right side |
| Shell.NulTerminate | user/sh.c:450-493 | exactly the ends of the command's words become NUL |
| Shell.WordsSurvive | user/sh.c:450-493 | no NUL falls inside another word: every argument and file name then reads as typed |
| Shell.ParseCommand | user/sh.c:328-342 | for every line, what it means as a sentence of the grammar, or a panic exactly if it is none; the command's words are exactly those of the line, and the buffer is cut so that every word reads as typed |

## Left out

- AC97 and PCI registers, volume, sample rate, pause and resume: device input and output.
- Trap entry, context switch, UART, PLIC, CLINT, console and start-up code: hardware plumbing; interrupts and switches are abstract steps.
- Spinlock internals and memory fences: acquire and release are atomic steps under sequential consistency.
- Path names (skipelem, namex), the inode cache (iget, ilock, iupdate), file descriptors and system-call argument fetching: would only add easy members.
- exec and the scheduler's choice of process: processes step in any order.
- Kernel page table set-up and the bit layout of page-table entries: an entry is a record of its flags and page number.
- runcmd and the other user programs, printf, string and number conversion.
- The device model of VirtioDisk takes and serves chains as section 2.6 of the virtio specification says; queue set-up and feature negotiation are not modelled.
- LogTorn.CommitTorn: the disk writes a sector as a whole and blocks in the order they were asked for.
- Log.RedoLog: the cache is the block map that BufferCache refines, so bread and brelse do not appear in it.
- BufferCache.Cache.ReleaseSleep: a holder gives back only buffers it has logged or written if it changed them; writei gives back one that it changed and did not log when a copy fails partway, which is the Short outcome of FileBlocks.
- FileBlocks.FileSystem.constructor: neither the test of the magic number nor the log's recovery, which is Log.RedoLog.constructor; the disk is taken as it is after both.
- FileBlocks.Boot: a finished image with more than 1022 files is not taken over, as some of them are lost.
- FileBlocks.FileSystem.Writei: after a panic only ownership is stated, as the kernel stops there.
- Mkfs.Image.Ialloc: stops behind the bitmap block, where mkfs would write inodes over data; Mkfs.BitmapIsNoFile shows that files are lost whatever follows.
- Mkfs.Image.Iappend: stops where mkfs would run past the indirect block, which an image of FSSIZE blocks has no room for.
- LinkCounts.Directories.DirLink: nlink is not limited to 16 bits, and directories are sequences of entries rather than file bytes.
- PageTable.Memory.MapPages: a page that is already mapped is the code's panic and a precondition here, as is an unmapped page in UvmUnmap.
- PageTable.Memory.UvmUnmap: with do_free set, every page belongs to the space; the kernel sets it only there.
- PageTable.Memory.UvmCopy: a parent page that is missing is the code's panic and a precondition here.
- SleepLock.State.StepKeeps: lk->pid and holdingsleep are not modelled; who has the lock is where the process is.
- ExitWait.State.StepKeeps: pids do not wrap, and killed is a choice of the process in wait.
- VirtioRuns.RequestServed: a process does not touch a buffer while a request for it is outstanding, as it holds the buffer's lock and sleeps.
- Pipe.PipeBuffer.Write: a call is one atomic stretch between two sleeps, as the code holds the pipe's lock.
- SoundQueue.SoundCard.Clear: not interleaved with interrupts; the handler is atomic, as on a single hart.
- SoundQueue.SoundCard.Write: sizes are not negative, and the refusal of more than 2048 bytes is left to the caller.
- SoundQueue.SoundCard.WriteDecodedAudio: once the queue is endless the call is not followed further.
- Umalloc.Allocator.Malloc: block sizes in headers are not limited to 32 bits, the program calls sbrk only through malloc or upwards, and what sbrk does with a request that its int cannot carry is not modelled.
- Shell.ParseCommand: memory for commands is never exhausted; a panic ends the parse.
