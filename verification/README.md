# A verified model of the xv6 kernel's storage, memory, process and shell logic

This project models the parts of this xv6 (the 2007 code with a write-ahead
journal, doubly-indirect files, a lottery scheduler and user threads added) whose
correctness rests on facts that no single function states, and proves those facts
for all inputs, all interleavings or all runs. `dafny verify dfyconfig.toml` checks
everything.

| files | part of the system |
|---|---|
| `Basics`, `Blocks` | optional results, 32-bit words, 512-byte blocks read as words |
| `JournalLog`, `JournalCrash`, `JournalRuns`, `Journal` | the write-ahead journal of `xv6/bio.c`: format, crash atomicity, runs, code |
| `BufferCache`, `BufRing` | the buffer cache of `xv6/bio.c`: machine and linked ring |
| `CacheJournal` | cache and journal together: crash safety of the whole |
| `FsLayout`, `FsSteps`, `FsSpace`, `FsWrites`, `FileSystem` | block allocation and file contents of `xv6/fs.c` |
| `Mkfs`, `MkfsBuild` | `xv6/mkfs.c` as a second writer of the same format |
| `FsFailures` | inputs at which the file code fails |
| `PageRuns`, `PageList`, `Umalloc` | the page allocator of `xv6/kalloc.c`, as runs and as its linked list, and the user allocator of `xv6/umalloc.c` |
| `ProcTable`, `ProcRuns`, `ProcFacts`, `ProcLoss`, `Lottery` | fork, exit, wait, sleep, wakeup, kill and the lottery of `xv6/proc.c` |
| `Pipe`, `PipeRing` | `xv6/pipe.c`: interleavings and the ring buffer |
| `ShellSyntax`, `ShellParser`, `ShellGrammar`, `ShellPrint`, `ShellTerminate` | the lexer, parser and NUL termination of `xv6/sh.c`, and the grammar it parses |
| `Grep` | the matcher of `xv6/grep.c` |

How the model is built. Code that changes things in place is a class whose methods
keep the source's loops and are proved equal to functions on values; what the
system promises is then proved about those functions. Concurrent code is a machine
whose steps are the stretches of code between taking and giving up a lock, and the
single stores made outside one; theorems about it hold for every sequence of steps.
A step of the model may be offered in more situations than the kernel offers it (a
woken process, for example, may do anything a running process may do), which only
adds runs to the theorems. A disk is a sequence of 512-byte sectors, one `ide_rw` is
one sector transfer, and a crash keeps a prefix of the sector writes an operation
issues.

Properties that the code does not have, each with its exact condition and an input
at which it fails:

- `jfull_flush` with several unflushed transactions installs only the first, because
  `end_trans` never advances `mtn_tail` (recovery's own append does). Committed data is
  never lost in a run if and only if no flush forgets a transaction that changes what the
  first one leaves: `JournalRuns.JournalRunTheorem`, and with the buffer cache on top
  `CacheJournal.CrashSafeStore`; fails in `JournalRuns.FlushLosesSecond`.
- `end_trans` never returns if and only if other transactions are pending and it reaches
  the journal's last sector: `jbwrite` then calls `jfull_flush`, which waits for the lock
  that `end_trans` holds: `Journal.Journal.EndTrans`; fails in `Journal.HangsAtEnd`. A
  crash after that loses nothing that was committed: `JournalCrash.CommitIsAtomic`.
- a process can sleep in `wait` for good. A fork that runs out of memory frees its
  child's slot and clears its parent with two stores and no lock between (lines 150-151
  of `xv6/proc.c`); another fork can take the slot in between, and the second store then
  takes that child from its parent. A run loses a child if and only if a second store
  finds the slot taken: `ProcRuns.NoLostChild`; fails in `ProcLoss.WaitsForNobody`.
- `writei` keeps a file free of gaps if and only if the write starts no more than one
  block past the last mapped byte; `off > size` is not refused:
  `FileSystem.FileSystem.Writei`; fails in `FsFailures.GapWrite`. No caller passes such an
  offset. `filewrite` passes `f->off`, which starts at 0 and moves only by what `readi`
  and `writei` return; `itrunc` runs only when no open file refers to the inode; and
  `dirlink` and `unlink` pass offsets up to the directory's size.
- `balloc` can return a block past the end of the disk, if and only if no block of the
  disk is free: `FileSystem.FileSystem.Balloc`; fails in `FsFailures.BallocPastDisk`. A
  write maps such blocks if and only if it lacks more blocks than the disk has free:
  `FileSystem.FileSystem.Writei`.
- mkfs's size round-up gives the root directory a hole if and only if its size was a
  multiple of 512: `Mkfs.RootRoundUp`; fails in `FsFailures.RootHole`.
- `malloc`'s unit count is too small if and only if `nbytes + 7` wraps:
  `Umalloc.UnitsSuffice`; fails in `Umalloc.MallocWraps`.
- the byte count `malloc` asks of `sbrk` wraps to 0, and the allocator then hands out
  memory it was not given, if and only if 0xFFFFFFF1 <= nbytes <= 0xFFFFFFF8, no free
  block is large enough and `sbrk` succeeds: `Umalloc.Heap.Malloc`,
  `Umalloc.SbrkAsksIff`; fails in `Umalloc.SbrkWraps`.
- `kfree` of a range whose first byte is not free fills it before anything is checked,
  and so overwrites a header of the free list, if and only if the range meets free memory:
  `PageList.FillKeepsListIff`, `PageList.StartsInIff`; fails in `PageList.FreeOverlaps`.
- a `pipewrite` that returns -1 leaves readers asleep beside data if and only if it
  filled the pipe in that stretch, and a run leaves nobody asleep who could go on if and
  only if it has no such step: `Pipe.PipeRun`; fails in `Pipe.ReaderLeftAsleep`.
- of all draws below the ticket total a process is selected by as many as it holds
  tickets, if and only if the sum of all tickets does not wrap: `Lottery.ProportionalIff`;
  fails in `Lottery.WrapStarves`.
- `ttltcts` equals the tickets in the pool if and only if no process creation failed; as
  a 32-bit number, if and only if the pool's do not wrap and those of failed creations
  add up to 0: `Lottery.TotalIff`; fails in `Lottery.FailedForkInflates`. This is for
  updates of `ttltcts` that do not overlap: the subtraction in exit (line 509 of `xv6/proc.c`) takes
  no lock, so an update that another processor makes between its load and its store is
  lost, and then the two differ without a failed creation.

Where the code and its comments differ the model follows the code. `bwrite` does not
write to the disk: it marks the buffer and puts it in the transaction. The inode
blocks start at block 2 plus NJB, which counts the journal's superblock too, where the
comment in `xv6/fs.h` says `journal_size`. `>>` opens its file as `>` does. The
journal's tail block is the last block in use, not the first free one.

## Model

| member | source | states |
|---|---|---|
| `Blocks.PutGet` | xv6/fs.c:359-390 | a word stored in a block is read back, and no other word changes |
| `JournalLog.SuperFields` | xv6/bio.c:215-220 | the superblock's size and head survive a commit, its tail is the one published, and a flush leaves it empty |
| `JournalLog.HeaderFields` | xv6/bio.c:322-331 | the header block holds the checksum, the count and every home sector in list order |
| `JournalLog.ParseRoundTrip` | xv6/bio.c:242-297 | parsing a log that holds any transactions gives back their sectors, data and order |
| `JournalLog.RecoverFindsLog` | xv6/bio.c:229-301 | recovery of a disk finds exactly the transactions logged on it |
| `JournalLog.RedoAbsorbsPrefix` | xv6/bio.c:203-213 | replaying all writes over any prefix of them gives the same disk as writing them once |
| `JournalCrash.RecoveryInstallsLog` | xv6/bio.c:229-309 | recovery applies the logged transactions to the home blocks in commit order and empties the log |
| `JournalCrash.FlushInstalls` | xv6/bio.c:196-227 | a flush applies the transactions it is given and empties the log |
| `JournalCrash.CommitBeforeSuper` | xv6/bio.c:336-348 | before the superblock write the new transaction is stored behind the old log, which is all that counts |
| `JournalCrash.CommitExtendsLog` | xv6/bio.c:316-349 | after a whole `end_trans` the log is the old one with the transaction at its end |
| `JournalCrash.CommitIsAtomic` | xv6/bio.c:316-349 | after a crash at any sector write of `end_trans`, of one that gets stuck at the journal's end too, recovery gives the new state iff the superblock write landed, and the old state otherwise |
| `JournalCrash.FlushIsAtomic` | xv6/bio.c:196-227 | after a crash at any sector write of a flush of one transaction, recovery gives the state with it installed |
| `JournalCrash.RecoveryIsIdempotent` | xv6/bio.c:303-309 | recovery cut off and restarted any number of times ends with the logged transactions applied in order |
| `JournalRuns.AlwaysRoom` | xv6/bio.c:161-173 | in a journal of at least 22 blocks there is always room for the next header, and for a whole transaction if none is pending |
| `JournalRuns.StepSound` | xv6/bio.c:161-363 | every commit, flush of any number of transactions, crash in either, and boot keeps disk, log and list meaning the committed state, unless it is a flush that drops a transaction |
| `JournalRuns.DropLoses` | xv6/bio.c:196-227 | after a flush that drops a transaction recovery does not give the committed state |
| `JournalRuns.RunSound` | xv6/bio.c:161-363 | the same over any sequence of steps none of which drops a transaction |
| `JournalRuns.DurableIff` | xv6/bio.c:161-363 | from any sound state: at every point of a run recovery gives the committed state iff no flush of the run drops a transaction |
| `JournalRuns.JournalRunTheorem` | xv6/bio.c:196-363 | in every run from a fresh image, iff no flush drops a transaction: cutting the power anywhere and recovering yields the initial home blocks with exactly the transactions whose superblock write landed, in order |
| `JournalRuns.FlushInstallsOnlyFirst` | xv6/bio.c:354-358 | with any number pending, a flush installs the first only, empties the log, and empties the list iff there was one |
| `JournalRuns.FlushKeepsDurableIff` | xv6/bio.c:196-227 | a flush keeps all committed data iff every sector that the transactions after the first write ends with the value the first leaves there |
| `JournalRuns.FlushOneKeepsDurable` | xv6/bio.c:196-227 | a flush that finds one transaction drops none |
| `JournalRuns.SinglyNeverDrops` | xv6/fs.c:71-72 | a run in which every flush finds at most one transaction never drops one |
| `JournalRuns.FlushLosesSecond` | xv6/bio.c:354-358 | two commits to one sector and a flush: a crash brings back the first value |
| `Journal.Journal.JbWrite` | xv6/bio.c:161-173 | writes the next journal sector and advances the tail; hangs iff that was the last sector and something is pending |
| `Journal.Journal.LogTrans` | xv6/bio.c:320-348 | issues exactly the header, data and superblock writes, or hangs after those that fill the journal |
| `Journal.Journal.AppendTrans` | xv6/bio.c:350-358 | links the transaction behind the tail node without advancing the tail: the list is the abstract one with the transaction appended |
| `Journal.Journal.EndTrans` | xv6/bio.c:316-363 | hangs iff others are pending and it reaches the journal's last sector, having issued a beginning of its writes; else disk, header, journal tail and list are those of a commit step of the runs; nothing changes for an empty transaction |
| `Journal.HangsAtEnd` | xv6/bio.c:161-173 | two commits to a journal of five blocks: the second does not return |
| `Journal.Journal.InstallList` | xv6/bio.c:203-213 | the walk from head to tail writes home exactly the transactions of its nodes, in list order |
| `Journal.Journal.JFullFlush` | xv6/bio.c:196-227 | issues the home writes of the nodes from head to tail and the empty superblock; disk, journal tail and list are those of a flush step of the runs |
| `Journal.Journal.AppendParsed` | xv6/bio.c:279-289 | recovery's append, which does advance the tail |
| `Journal.Journal.ParseAll` | xv6/bio.c:242-297 | builds the list of logged transactions, or reports a bad checksum |
| `Journal.Journal.PbjFsck` | xv6/bio.c:229-314 | issues exactly the recovery's writes; disk, journal tail and list are those of a boot step of the runs |
| `BufferCache.FindFrom` | xv6/bio.c:103-116 | the first live buffer with the sector, from the most recently used |
| `BufferCache.VictimBelow` | xv6/bio.c:118-127 | the last buffer that is not busy |
| `BufferCache.BgetResult` | xv6/bio.c:97-129 | the buffer returned is not busy and holds the sector, or no live buffer does and it is the last on the ring that is not busy; a wait means a busy buffer holds it; a panic means all are busy with other sectors |
| `BufferCache.VictimIsOldest` | xv6/bio.c:118-127 | for a sector that is not cached, what bget returns was released no later than any other buffer that is not busy |
| `BufferCache.BgetAnswers` | xv6/bio.c:97-129 | a cached sector gets its buffer, or a wait if it is busy; an uncached one panics iff all buffers are busy |
| `BufferCache.ReleasedIsRing` | xv6/bio.c:183-188 | a release keeps every buffer in the ring exactly once |
| `BufferCache.ReleasedInOrder` | xv6/bio.c:183-188 | a release keeps the ring in order of release, latest first |
| `BufferCache.GotAlone` | xv6/bio.c:97-129 | no other live buffer has the sector bget was asked for |
| `BufferCache.DiskIsLatest` | xv6/bio.c:132-141 | a buffer that has to be read finds the latest contents on the disk |
| `BufferCache.BgetStep` | xv6/bio.c:97-129 | bget keeps the invariant and locks one buffer that nobody held: a cached block is handed out as it is, another buffer is neither valid nor dirty |
| `BufferCache.FillStep` | xv6/bio.c:137-140 | reading an empty buffer keeps the invariant, and the caller then has the sector |
| `BufferCache.BwriteStep` | xv6/bio.c:143-158 | bwrite keeps the invariant, changes the flat store at its sector only, and nothing on the disk |
| `BufferCache.BrelseStep` | xv6/bio.c:366-378 | brelse keeps the invariant: a clean buffer is free and first in the ring, a dirty one stays locked for its transaction |
| `BufferCache.CommitStep` | xv6/bio.c:316-363 | a commit, which writes journal sectors only, keeps the invariant, whatever is still unflushed |
| `BufferCache.FlushStep` | xv6/bio.c:204-214 | flushing any pending buffer keeps the invariant, with other processes running in between, and leaves it clean, free and first in the ring |
| `BufferCache.FlushWritesLogged` | xv6/bio.c:204-214 | a flush writes exactly the sector and data that were logged at commit |
| `BufferCache.StepKeepsInv` | xv6/bio.c:97-378 | every step keeps the invariant |
| `BufferCache.RunKeepsInv` | xv6/bio.c:97-378 | every run keeps the invariant |
| `BufferCache.StoreIsLastWritten` | xv6/bio.c:143-158 | the flat store holds, for every sector, the last value a bwrite of the run gave it |
| `BufferCache.StampsAreReleases` | xv6/bio.c:176-214 | the stamps the ring is ordered by are the times at which the run last gave each buffer up |
| `BufferCache.RecyclesOldest` | xv6/bio.c:118-127 | after every run, a sector that is not cached gets the free buffer given up longest ago |
| `BufferCache.CacheRun` | xv6/bio.c:97-378 | in every run, with any number of transactions unflushed, no two live buffers share a sector, dirty buffers are busy, the ring is a permutation in release order, bread returns the last value written, and an uncached sector gets the free buffer given up longest ago |
| `CacheJournal.FlushOneMeans` | xv6/bio.c:204-214 | a home write of a flush changes neither the log nor what it and the pending buffers mean |
| `CacheJournal.CommitGood` | xv6/bio.c:316-363 | a commit of the buffers of a transaction makes the log mean what was durable with their contents |
| `CacheJournal.FlushEndIff` | xv6/bio.c:216-224 | emptying the log keeps what is durable iff every pending buffer equals its home sector |
| `CacheJournal.CrashInCommitGood` | xv6/bio.c:229-349 | a crash after any sector write of a commit and any number of interrupted recoveries lead to the state with or without the transaction, never a part of it |
| `CacheJournal.CommitAt` | xv6/bio.c:333-343 | what a commit makes durable is, sector by sector, the latest contents of the sectors its process wrote |
| `CacheJournal.StepRefines` | xv6/bio.c:97-378 | every step, crashes included, does to a flat array of blocks with transactions what a write, a commit or a power failure does |
| `CacheJournal.EarlyLoses` | xv6/bio.c:216-224 | once a flush has emptied the log too early recovery lacks something committed |
| `CacheJournal.RunRefines` | xv6/bio.c:97-378 | at every point of a run recovery gives the durable contents of the flat array iff no flush empties the log too early |
| `CacheJournal.CrashSafeStore` | xv6/bio.c:97-378 | in every run from a fresh image, with any number of processes and crashes: that equivalence, and bread returns what was last written or, after a crash, last committed |
| `BufRing.PushFront` | xv6/bio.c:67-72 | the four pointer stores put the buffer first in the ring |
| `BufRing.Unlink` | xv6/bio.c:183-184 | the two pointer stores take the buffer out of the ring |
| `BufRing.Cache.constructor` | xv6/bio.c:54-73 | binit links all buffers, the last one first |
| `BufRing.Cache.FindCached` | xv6/bio.c:105-116 | the forward scan finds the first live match |
| `BufRing.Cache.FindVictim` | xv6/bio.c:119-127 | the backward scan finds the last buffer not busy |
| `BufRing.Cache.BgetPass` | xv6/bio.c:97-129 | one pass of bget: buffer, wait or panic, and the buffers after it; a buffer taken for an uncached sector is the last on the ring that is not busy |
| `BufRing.Cache.Bread` | xv6/bio.c:132-141 | the buffer is valid, with the cached or the disk's contents, and no other changes |
| `BufRing.Cache.Jbrelse` | xv6/bio.c:176-194 | the buffer is first in the ring and not busy, and nothing else changes |
| `BufRing.Cache.Brelse` | xv6/bio.c:366-378 | released unless dirty inside a transaction, in which case nothing changes |
| `FsLayout.MarkChangesOne` | xv6/fs.c:66-68 | setting or clearing a block's bit changes that block's mark only |
| `FsLayout.DataPosInjective` | xv6/fs.c:340-390 | different file blocks have different places in the block tree |
| `FsLayout.OwnershipIsDisjoint` | xv6/fs.c:334-394 | no two places of any inodes hold the same block |
| `FsSteps.MarkFree` | xv6/fs.c:54-81 | marking a free block keeps ownership, marks and zeroed free blocks |
| `FsSteps.InstallAddr` | xv6/fs.c:340-358 | a fresh block put in an inode's empty address appears at that place of the trees only, and keeps ownership, marks and zeroed free blocks |
| `FsSteps.InstallMid` | xv6/fs.c:359-374 | the same for a second-level block put in the indirect root, with every data block kept |
| `FsSteps.InstallLeaf` | xv6/fs.c:376-390 | the same for a data block put in a second-level block |
| `FsSteps.InstalledSameBytes` | xv6/fs.c:340-390 | recording a zeroed block at an empty place changes no file's bytes |
| `FsSteps.FreeDirectSound` | xv6/fs.c:84-106 | freeing a direct block keeps ownership, marks and zeroed free blocks |
| `FsSpace.FreeIff` | xv6/fs.c:54-81 | the number of free blocks is positive iff the bitmap shows one |
| `FsSpace.TakenWithinIff` | xv6/fs.c:54-81 | taking the lowest free blocks stays below n iff no more are taken than were free below n |
| `FsSpace.LackingSplit` | xv6/fs.c:340-390 | what two ranges lack together is what the first lacks and what the second still lacks once the first is mapped |
| `FsSpace.RecordsFromIff` | xv6/fs.c:340-390 | a file records a new block from n on iff it lacked more than was free below n |
| `FsSpace.PathsCount` | xv6/fs.c:340-390 | n data blocks take n places up to 12, and beyond that one root and one second-level block for every 128 more |
| `FsSpace.ExactNeed` | xv6/mkfs.c:308-342 | appending takes exactly the blocks by which the longer file's tree is larger |
| `FsSpace.NoRoom` | xv6/fs.c:492-500 | if the blocks run out part of the way, the whole range lacked more than were free |
| `FsWrites.WroteContents` | xv6/fs.c:475-507 | the chunks written are the file's old bytes overwritten, and no other file changes |
| `FsWrites.WroteTight` | xv6/fs.c:475-507 | the file has no gap iff the write started within a block of the mapped end; then a new address means growth |
| `FileSystem.FileSystem.FreeBit` | xv6/fs.c:65-77 | the first clear bit of a bitmap block |
| `FileSystem.FileSystem.Balloc` | xv6/fs.c:54-81 | the lowest free block, now marked, or a panic iff none is free or the lowest is block 1; inside the disk iff the disk has a free block |
| `FileSystem.BallocSucceedsIff` | xv6/fs.c:54-81 | in a sound store balloc panics iff no block is free |
| `FileSystem.MapsThen` | xv6/fs.c:348-390 | the levels of the tree compose: bmap takes what all its levels lack and panics iff that is more than there is room for |
| `FileSystem.FileSystem.Bfree` | xv6/fs.c:84-106 | zeroes and unmarks the block, or panics iff it was free |
| `FileSystem.FileSystem.Bmap` | xv6/fs.c:334-394 | the block of the tree; without alloc -1 iff something is missing on the way; with it a panic iff more is missing than is free, and else just the missing places are recorded, no file's bytes and no other tree changed |
| `FileSystem.FileSystem.Readi` | xv6/fs.c:448-472 | the file's bytes from off on, clamped to its size, with the error cases, when the blocks they fall in are mapped |
| `FileSystem.WriteiGaps` | xv6/fs.c:492-505 | in a gap-free file an inode that a write changes has grown, so iupdate on growth alone is enough; other files are as gap-free as before |
| `FileSystem.FileSystem.Writei` | xv6/fs.c:475-507 | the old bytes overwritten and all other files unchanged; a panic iff off is past the largest size or fewer blocks are free than the range lacks; blocks past the disk's end iff the range lacks more than the disk has free; the disk inode of a gap-free file stays equal and no other disk inode changes; the file stays gap-free iff the write starts near enough |
| `FileSystem.FileSystem.FreeDirect` | xv6/fs.c:405-410 | one direct address freed, all other files kept |
| `FileSystem.FileSystem.ItruncDirect` | xv6/fs.c:397-434 | a file of direct blocks becomes empty, on disk too, and no other file changes |
| `Mkfs.LayoutAgrees` | xv6/mkfs.c:81-86 | mkfs's bitmap block of every block is the kernel's, and journal, inode, bitmap and data sectors do not overlap |
| `Mkfs.RootRoundUp` | xv6/mkfs.c:145-150 | the rounded-up root directory is gap-free iff its size was no multiple of 512 |
| `Mkfs.Mkfs.MapBlock` | xv6/mkfs.c:309-342 | the block iappend writes to is where the kernel looks for it, and it fails iff more is missing than the image has room for |
| `Mkfs.Mkfs.AppendChunk` | xv6/mkfs.c:343-349 | one chunk lands at its file offset |
| `Mkfs.Mkfs.Iappend` | xv6/mkfs.c:295-353 | the file's contents grow by the data and no other file changes, iff the size stays within bounds and there is room; the counter moves by the blocks needed |
| `Mkfs.Mkfs.Ialloc` | xv6/mkfs.c:263-275 | the next inode becomes an empty file and no file's contents change, iff its block is on the disk |
| `Mkfs.Mkfs.FixRoot` | xv6/mkfs.c:145-150 | the root directory gains zeros up to its new size, and is the only file that can have a gap, iff its size was a multiple of 512 |
| `Mkfs.BitmapOf` | xv6/mkfs.c:277-288 | exactly the first `used` bits are set |
| `Mkfs.Mkfs.Balloc` | xv6/mkfs.c:277-291 | the bitmap written marks exactly the used blocks and makes the image one the kernel's invariants hold for, with the same files |
| `MkfsBuild.FitsIffEnough` | xv6/mkfs.c:308-342 | an append has room iff the data and index blocks of all files after it fit on the disk |
| `MkfsBuild.Build` | xv6/mkfs.c:104-143 | any sequence of new files and appends succeeds iff the files and the inode blocks it asks for fit, and then the image holds them |
| `MkfsBuild.BuildThenRead` | xv6/mkfs.c:104-152 | the kernel's readi of any file of an image so built returns the appended data, zero-padded for the root directory, unless that has a hole |
| `FsFailures.GapWrite` | xv6/fs.c:487-500 | one byte at offset 512 of an empty file is accepted and leaves a gap |
| `FsFailures.BallocPastDisk` | xv6/fs.c:62-77 | on a full disk of 1000 blocks balloc returns block 1000 |
| `FsFailures.RootHole` | xv6/mkfs.c:145-150 | a root directory of 512 bytes comes out with its second block missing |
| `PageRuns.InsertCover` | xv6/kalloc.c:44-84 | kfree adds exactly the range given to the free set |
| `PageRuns.InsertGood` | xv6/kalloc.c:44-84 | kfree of memory that is not free keeps runs sorted, aligned, apart and never adjacent |
| `PageRuns.TakeCover` | xv6/kalloc.c:89-116 | kalloc takes exactly the range it returns from the free set |
| `PageRuns.TakeGood` | xv6/kalloc.c:89-116 | kalloc keeps the list sorted, aligned and never adjacent |
| `PageRuns.AllocFailsIff` | xv6/kalloc.c:89-116 | kalloc fails iff no n contiguous free bytes exist |
| `PageRuns.FirstFit` | xv6/kalloc.c:97-111 | kalloc returns the end of the lowest stretch of free memory that is long enough |
| `PageRuns.StepAccounts` | xv6/kalloc.c:44-116 | a step keeps free and allocated memory a partition of the pool |
| `PageRuns.RunAccounts` | xv6/kalloc.c:44-116 | every run of kalloc and kfree does |
| `PageList.FillKeepsListIff` | xv6/kalloc.c:52-53 | kfree's fill leaves the linked list as it is iff no run starts in the range |
| `PageList.StartsInIff` | xv6/kalloc.c:52-53 | a run starts in a range whose first byte is not free iff the range meets free memory |
| `PageList.HeldIsApart` | xv6/kalloc.c:44-84 | a range that is held meets no free memory and no header |
| `PageList.Allocator.Walk` | xv6/kalloc.c:58-61 | the loop stops at the first run past the range, holding its first byte, or touching it |
| `PageList.Allocator.KFree` | xv6/kalloc.c:44-84 | the list becomes the one with the range inserted and joined, and its headers link it; panics iff the length or the first byte is wrong |
| `PageList.Allocator.KAlloc` | xv6/kalloc.c:89-116 | the loop takes the first run large enough, whole or from its end, and keeps the list linked |
| `PageList.FreeOverlaps` | xv6/kalloc.c:52-53 | two kfrees, the second overlapping the first: the list leads to address 0x01010101 |
| `Umalloc.GapIff` | xv6/umalloc.c:30-32 | free's test succeeds at exactly one node of the cycle |
| `Umalloc.UnitsSuffice` | xv6/umalloc.c:69 | the units counted hold nbytes iff the sum does not wrap, and then no fewer would |
| `Umalloc.MallocWraps` | xv6/umalloc.c:69 | a request for 4294967292 bytes is served with one unit |
| `Umalloc.SbrkAsksIff` | xv6/umalloc.c:54 | sbrk is asked for the units that go to the free list, or for nothing, and for which requests |
| `Umalloc.SbrkWraps` | xv6/umalloc.c:54 | a request for 4294967281 bytes in a new process asks sbrk for 0 bytes and gets 2^29 units |
| `Umalloc.FreeSplices` | xv6/umalloc.c:33-43 | linking in and joining both neighbours keeps the one address-ordered cycle, adding the block's units |
| `Umalloc.Heap.constructor` | xv6/umalloc.c:21-22 | a process starts with nothing free and nothing held |
| `Umalloc.Heap.Locate` | xv6/umalloc.c:30-32 | free's search ends at the block's place |
| `Umalloc.Heap.FreeBlock` | xv6/umalloc.c:24-44 | the free units grow by exactly the block, the cycle is kept, and the next search starts at the block before it |
| `Umalloc.Heap.Morecore` | xv6/umalloc.c:46-61 | the region behind what sbrk returned is free, so a block large enough exists |
| `Umalloc.Heap.Scan` | xv6/umalloc.c:74-86 | one round of the cycle from freep finds a block large enough iff there is one, and the first such |
| `Umalloc.Heap.Find` | xv6/umalloc.c:74-89 | morecore is called iff no free block is large enough |
| `Umalloc.Heap.Search` | xv6/umalloc.c:74-89 | a block of the size asked for leaves the free units; morecore is called iff none was large enough before, the result is 0 iff it also got nothing, and without it the block used is the first large enough behind freep |
| `Umalloc.Heap.Malloc` | xv6/umalloc.c:63-90 | free and held blocks stay a partition of what sbrk gave iff its byte count did not wrap; sbrk is asked, once, iff no free block is large enough, the result is 0 iff it also refused, a failure changes nothing; else the block is the end of the first one large enough behind freep |
| `Umalloc.Heap.FreeUser` | xv6/umalloc.c:24-44 | the block goes from held to free, the partition is kept, and the next search starts at the block before it |
| `ProcTable.Table.AllocProc` | xv6/proc.c:43-68 | the first unused slot becomes an embryo with the next pid and 100 tickets |
| `ProcTable.Table.Wakeup1` | xv6/proc.c:456-464 | every sleeper on the channel, and nobody else, becomes runnable |
| `ProcTable.Table.Kill` | xv6/proc.c:478-496 | the lowest slot with the pid is marked, runnable if it slept and otherwise in its old state, with pid, parent, channel and tickets as before; no other slot changes; -1 iff no slot has the pid |
| `ProcTable.Table.Exit` | xv6/proc.c:528-545 | slot by slot: the sleepers on the parent, or with none those who sleep on nothing, and on init iff a child given to it is a zombie, become runnable; children go to init; the caller is a zombie; nothing else changes |
| `ProcTable.Table.WaitPass` | xv6/proc.c:551-594 | the lowest zombie child is freed and its pid returned; else -1 iff childless or killed; else the caller sleeps on itself; nothing else changes |
| `ProcFacts.KillReaches` | xv6/proc.c:478-496 | kill of a living process's pid marks that process and leaves it awake, and changes no other |
| `ProcFacts.KilledUntilExit` | xv6/proc.c:478-594 | in every run a marked process stays marked until its exit and never sleeps in wait |
| `ProcFacts.KillSticks` | xv6/proc.c:478-594 | in every run from boot a kill reaches its process, which is then marked until it exits, with no scan of wait by it sleeping |
| `ProcFacts.AsleepStays` | xv6/proc.c:420-473 | in every run a process asleep on a channel stays so until a wakeup on that channel, a kill of it, or a wakeup by condition |
| `ProcFacts.SleepThenWakeup` | xv6/proc.c:420-473 | sleep and then, after any run that does not wake it, a wakeup on its channel: the sleepers there, and nobody else, are runnable |
| `ProcFacts.CondSleepThenWake` | xv6/proc.c:649-676 | sleep_on_cond puts its caller to sleep and leaves its channel as it is; wake_on_cond makes the sleepers it picks runnable, and changes nobody else |
| `ProcFacts.GivesUpStep` | xv6/proc.c:397-546 | yield leaves its caller runnable, sleep asleep, exit a zombie |
| `ProcFacts.RunsOnlyWhenPicked` | xv6/proc.c:272-415 | in every run, a process that gave the processor up runs again only when the scheduler picks it |
| `ProcFacts.TicketsAreLast` | xv6/sysproc.c:44-58 | in every run a slot holds the tickets last asked for, or the 100 it was allocated with |
| `ProcRuns.QuietSteps` | xv6/proc.c:419-496 | sleep, wakeup, kill, yield and dispatch change no pid, no parent and no life, and put nobody to sleep in wait |
| `ProcRuns.AllocCore` | xv6/proc.c:43-68 | allocproc keeps pids distinct, tasks consistent and exits accounted for |
| `ProcRuns.ForkFamily` | xv6/proc.c:126-153 | a step of fork about a slot that is its own keeps every parent living and every sleeper in wait with a child |
| `ProcRuns.ForkUndoneFamily` | xv6/proc.c:150-151 | the second store of a failed fork does so too if the slot is not in use |
| `ProcRuns.StealLosesOne` | xv6/proc.c:150-151 | if the slot is in use, the second store loses a child |
| `ProcRuns.ExitWaits` | xv6/proc.c:528-545 | whoever still sleeps in wait after an exit has a child and no zombie child, adopted ones included |
| `ProcRuns.ExitCore` | xv6/proc.c:501-547 | exit keeps pids, tasks and the account of exits |
| `ProcRuns.ExitFamily` | xv6/proc.c:501-547 | exit keeps every parent living, orphans being given to init, and every sleeper in wait with a child |
| `ProcRuns.WaitStep` | xv6/proc.c:551-594 | a scan of wait keeps the invariant |
| `ProcRuns.StepKeepsCore` | xv6/proc.c:419-594 | every step keeps what holds whoever is whose parent |
| `ProcRuns.StepKeepsFamily` | xv6/proc.c:419-594 | every step but a late store into a taken slot keeps the family |
| `ProcRuns.EachExitOnce` | xv6/proc.c:501-594 | in every run an exited pid is a zombie's or has been returned by wait, and none is returned twice |
| `ProcRuns.NeverLostIff` | xv6/proc.c:419-594 | from any good state a run loses no child iff no late store finds its slot taken |
| `ProcRuns.NoLostChild` | xv6/proc.c:419-594 | in every run from boot, iff no late store finds its slot taken: whoever sleeps in wait has a child and no zombie child, every process but init has a living parent, and so has a child in the making |
| `ProcRuns.UntakenLosesNone` | xv6/proc.c:43-153 | a run in which no allocproc comes between the two stores loses no child |
| `ProcLoss.WaitsForNobody` | xv6/proc.c:150-151 | a run after which a process sleeps in wait and has no child |
| `Lottery.Draw` | xv6/proc.c:291-320 | the scan in 32-bit arithmetic selects the first slot its test holds for; while the tickets do not wrap, the holder of the drawn ticket, or no one for a draw past the total; it is run iff runnable |
| `Lottery.WinnerIff` | xv6/proc.c:296-307 | a draw has exactly one winner iff it is below the total |
| `Lottery.ProportionalIff` | xv6/proc.c:296-307 | of all draws below the 32-bit total each process is selected by as many as it holds tickets iff the sum does not wrap |
| `Lottery.WrapStarves` | xv6/proc.c:296-307 | three processes with the most tickets: the second and third are never selected |
| `Lottery.StepCounts` | xv6/proc.c:43-68 | every step keeps the total equal to the pool's tickets plus those of failed creations |
| `Lottery.TotalIff` | xv6/sysproc.c:44-59 | in every run the total is the pool's plus 100 per failed creation, so equal to the pool's iff none failed; as a 32-bit number iff the pool's does not wrap and those of failed creations add up to 0 |
| `Lottery.FailedForkInflates` | xv6/proc.c:135-153 | a run with one failed fork after which the two differ |
| `Pipe.WriteStretch` | xv6/pipe.c:77-97 | appends the bytes stored, in order, and reads none; a caller that sleeps is among the sleeping writers |
| `Pipe.ReadStretch` | xv6/pipe.c:99-120 | a read that returns takes exactly the oldest bytes, as many as asked for and there are; one that fails or sleeps takes none |
| `Pipe.WriteNoStuckIff` | xv6/pipe.c:83-96 | pipewrite leaves no reader asleep beside data iff it does not fill the pipe and return -1 |
| `Pipe.ReadNoStuck` | xv6/pipe.c:104-119 | piperead leaves nobody asleep who could go on |
| `Pipe.StepNoStuckIff` | xv6/pipe.c:60-120 | the same for every step, closing an end and a kill that comes between test and sleep included |
| `Pipe.NeverStuckIff` | xv6/pipe.c:60-120 | in every state of a run nobody sleeps who could go on iff no step of it loses a wakeup |
| `Pipe.PipeRun` | xv6/pipe.c:60-120 | in every interleaving the bytes handed out by the pipereads, in order, are a prefix of what is written with at most 512 bytes between, and that is a shuffle of the pipewrites' bytes, each in its own order and complete once its call has returned; nobody ever sleeps who could go on iff no pipewrite fills the pipe and returns -1 beside a sleeping reader |
| `Pipe.ShutEnds` | xv6/pipe.c:60-75 | after an end is closed no reader, or no writer, ever sleeps again |
| `Pipe.KillEnds` | xv6/pipe.c:83-112 | a process killed, in its sleep or before it, never sleeps on the pipe again |
| `Pipe.ReaderLeftAsleep` | xv6/pipe.c:83-88 | a run in which a reader sleeps beside a full pipe |
| `PipeRing.WrapKeepsCell` | xv6/pipe.c:92 | a wrapped counter names the same cell, because 512 divides 2^32 |
| `PipeRing.WrapTellsDistance` | xv6/pipe.c:84 | the wrapped full and empty tests are exact |
| `PipeRing.Ring.constructor` | xv6/pipe.c:31-35 | an empty pipe open at both ends |
| `PipeRing.Ring.Write` | xv6/pipe.c:77-97 | the loop on the ring appends the bytes up to i, is the stretch on byte sequences, and stops short only when the ring is full |
| `PipeRing.Ring.Read` | xv6/pipe.c:99-120 | the loop on the ring hands out the oldest bytes and takes them from the ring; it fails or sleeps only on an empty pipe that is open for writing |
| `PipeRing.Ring.CloseEnd` | xv6/pipe.c:60-75 | one end is closed and those who wait for it are woken |
| `ShellSyntax.GetToken` | xv6/sh.c:264-307 | the token lies after the cursor, and a word is a maximal stretch of word characters |
| `ShellSyntax.ParseLine` | xv6/sh.c:343-358 | terminates on every text, with the cursor moved forward inside it |
| `ShellParser.Parser.Gettoken` | xv6/sh.c:264-307 | the cursor loops compute the token |
| `ShellParser.Parser.Peek` | xv6/sh.c:309-319 | skips white space and tests the next character |
| `ShellParser.Parser.Parseredirs` | xv6/sh.c:373-396 | the loop collects the redirections, or panics without a file name |
| `ShellParser.Parser.Parseexec` | xv6/sh.c:414-445 | the loop is the one that `ShellGrammar.ArgsParse` and `ArgsFound` are about: words and redirections in any order, or a block |
| `ShellParser.Parser.Parseblock` | xv6/sh.c:398-412 | a parenthesised line and its redirections |
| `ShellParser.Parser.Parsepipe` | xv6/sh.c:360-371 | a pipeline, associated to the right |
| `ShellParser.Parser.Parseline` | xv6/sh.c:343-358 | a pipeline with its `&`s, then `;` and the rest |
| `ShellParser.Parser.Parsecmd` | xv6/sh.c:326-341 | a tree exactly for the texts that are lines of the grammar, and that line's tree; else a panic |
| `ShellGrammar.FilesParse` | xv6/sh.c:373-396 | redirections `<`, `>` and `>>` are read in order up to the next token of another kind |
| `ShellGrammar.ArgsParse` | xv6/sh.c:428-445 | words with redirections behind any of them give the words and all redirections, the first innermost |
| `ShellGrammar.ElementParse` | xv6/sh.c:398-445 | a simple command or a block with redirections gives its tree |
| `ShellGrammar.PipeParse` | xv6/sh.c:360-371 | commands joined by pipe signs give pipes nested to the right |
| `ShellGrammar.LineParse` | xv6/sh.c:343-358 | pipelines, each with any number of `&`, joined by `;` give a list nested to the right |
| `ShellGrammar.ArgsFound` | xv6/sh.c:428-445 | whatever the loop reads are fewer than ten words with redirections behind them |
| `ShellGrammar.LineFound` | xv6/sh.c:343-445 | whatever parseline reads are the tokens of a line of the grammar |
| `ShellGrammar.DerivedParses` | xv6/sh.c:326-445 | a text whose tokens are those of a line of the grammar parses to that line's tree |
| `ShellGrammar.ParsedDerives` | xv6/sh.c:326-445 | a text that parses has the tokens of a line of the grammar with that tree |
| `ShellGrammar.ParserIsGrammar` | xv6/sh.c:326-445 | a text parses to a tree iff its tokens are those of a line of the grammar with that tree |
| `ShellPrint.LaidPieces` | xv6/sh.c:264-307 | the lexer reads tokens back however they are laid out with white space |
| `ShellPrint.ParseLaid` | xv6/sh.c:264-445 | every layout of a line's tokens parses to the line's tree |
| `ShellPrint.ParsePlain` | xv6/sh.c:326-445 | lines printed without parentheses, such as `a <x b >y >>z`, `a&;b` and pipelines, parse to the tree the grammar gives |
| `ShellPrint.ParsePrint` | xv6/sh.c:326-445 | parsing the fully parenthesised printing of any command gives the command back |
| `ShellTerminate.ParseLineWords` | xv6/sh.c:343-445 | every word the parser records is a maximal word of the text |
| `ShellTerminate.TerminationIsSafe` | xv6/sh.c:448-492 | after termination each argument and file name, read as a C string, is its token |
| `ShellTerminate.Nulterminate` | xv6/sh.c:448-492 | writes a NUL behind each recorded word and nowhere else |
| `Grep.StarMeans` | xv6/grep.c:98-105 | matchstar succeeds iff some number of fitting characters leaves an accepted rest |
| `Grep.HereMeans` | xv6/grep.c:84-95 | matchhere succeeds iff a prefix of the text (all of it before a final $) is in the pattern's language |
| `Grep.MatchMeans` | xv6/grep.c:71-81 | match succeeds iff a piece of the text is in the language, at the start after ^ |
| `Grep.Corners` | xv6/grep.c:84-95 | what patterns with a leading star, a starred $ and a double star spell |
| `Grep.MatchHereAt` | xv6/grep.c:84-95 | the recursion decides the language |
| `Grep.MatchStarAt` | xv6/grep.c:98-105 | the loop tries every count |
| `Grep.MatchAt` | xv6/grep.c:71-81 | the loop finds a match anywhere in the text, the empty end included |

## Left out

- JournalCrash.FlushIsAtomic: for one unflushed transaction; for more, JournalRuns.FlushKeepsDurableIff has the exact condition.
- JournalCrash.CommitBeforeSuper: transactions that fit the journal; one that does not is never published.
- JournalCrash.CommitExtendsLog: transactions that fit the journal; one that does not is never published.
- JournalRuns.StepSound: a flush of a list that mtn_tail leads away from is not a step, nor are two of the journal's operations at once; jfull_flush reads mtn_tail before it takes the lock.
- JournalRuns.RunSound: the same steps, and only runs without a drop; JournalRuns.DurableIff is for all.
- JournalRuns.JournalRunTheorem: the same steps.
- Journal.Journal.JbWrite: sectors inside the journal; JournalRuns.AlwaysRoom shows that a journal of mkfs's size is never written past its end.
- Journal.Journal.LogTrans: as JbWrite.
- Journal.Journal.EndTrans: as JbWrite.
- Journal.Journal.JFullFlush: not a list that mtn_tail leads away from, which two commits after a flush of several transactions leave; there the walk does not end at the tail.
- Journal.Journal.ParseAll: as PbjFsck.
- Journal.Journal.PbjFsck: not a log whose headers name blocks outside the journal, where the code reads past its array; nodes from kmalloc are taken as zeroed.
- BufferCache.CacheRun: for runs in which each buffer is written once and released before end_trans, without recovery, and with jbwrite's temporary sector change as part of one step.
- CacheJournal.CrashSafeStore: the same; a boot starts with an empty cache, where pbjFSck leaves the blocks it read; sectors are numbered by 32-bit words.
- BufRing.Cache.Bread: bget and the disk read without another process in between, which BufferCache has as two steps; and one device.
- FileSystem.FileSystem.Readi: reads whose blocks are mapped; for a gap the code asks the disk for block -1. Device files are answered `Device`.
- FileSystem.FileSystem.ItruncDirect: the indirect branch of itrunc tests an address past the array and frees nothing, so files with indirect blocks are excluded.
- FileSystem.FileSystem.Writei: the block store goes on past the disk's end, up to the last block the bitmap describes; what a disk does with such blocks is not modelled.
- FileSystem.FileSystem.Bmap: when a call panics or runs out of blocks nothing is claimed about the state.
- Mkfs.Mkfs.Balloc: images whose used blocks fit one bitmap block; mkfs writes no second one.
- Mkfs.Mkfs.Ialloc: the 200 inodes the superblock announces; mkfs does not check the number.
- Mkfs.Mkfs.FixRoot: root directories below the largest file size.
- MkfsBuild.BuildThenRead: the same; sectors past the disk's size are not part of the image, so reading one back ends mkfs.
- PageList.Allocator.KFree: ranges in which no run starts but perhaps at their first byte; otherwise the walk follows an overwritten header.
- Umalloc.Heap.Malloc: sbrk is a parameter that returns an address above the list's base behind which nothing was given, or nothing.
- Umalloc.Heap.Morecore: the same; how much sbrk gave is accounted for in Malloc.
- ProcRuns.NoLostChild: pids are unbounded.
- ProcFacts.KillSticks: the same.
- ProcFacts.CondSleepThenWake: which sleepers wake_on_cond picks, by address space and condition, is a parameter.
- ProcTable.Table.Exit: the caller is not its own parent.
- Lottery.Draw: the random number is a parameter.
- Lottery.TotalIff: each update of ttltcts is one step, though the code guards them with different locks or, in exit, none.
- Pipe.PipeRun: freeing the pipe's page after both ends are closed.
- ShellGrammar.ParserIsGrammar: texts are the characters before the NUL, and malloc gives every node.
- ShellPrint.ParsePrint: the same.
- The inode cache, directories, path names, link counts and the log of the file system on top of the journal.
- Inode sectors as bytes: inodes are records on disk and in memory, one in-memory copy each.
- Thread creation, which shares memory and files without counting references.
- Liveness: that a dirty buffer is flushed, a sleeper scheduled or a lock granted in time.
- Devices, traps, segments, boot code, console, system-call plumbing, runcmd and the small user programs.
