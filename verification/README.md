# xv6 storage, memory, processes and user tools: a Dafny model

The model covers the parts of the xv6 course projects whose state is hardest to keep right. It follows the
code of `p2/solution` (the copies under `p4` and `p5` are the same), and for the stride scheduler `p4/solution`.

| module | models |
|---|---|
| `Bytes`, `Memide` | disk blocks as bytes, words and bits; the synchronous disk with a record of every block write |
| `Bio` | the buffer cache: a circular doubly linked list, keys, reference counts, dirty and locked buffers |
| `LogSpec`, `LogRun`, `LogProto`, `Log` | the redo log: its writes and what a crash leaves, over one commit and over runs; admission of operations; the code over the cache |
| `FsSpec`, `FileSpec`, `Fs` | block bitmap, inode addresses, file contents, `readi`, `writei`, `itrunc`, `iput`, `filewrite` |
| `FsCrash` | what a crash leaves of the file system when the log commits operations in groups |
| `Umalloc` | the Kernighan and Ritchie allocator |
| `VmSpec`, `Vm` | the frame allocator and two-level page tables |
| `ProcSpec`, `Proc` | the process table: fork, exit, wait, sleep, wakeup, kill |
| `Pipe` | the pipe ring with wrapping counters and its sleepers |
| `Stride` | the stride scheduler's pick, proportional share and starvation bound |
| `ShSpec`, `Sh` | the shell's parser as functions of the text and as code; NUL-termination of words |
| `ShGrammar` | the shell's grammar by itself: lexemes, productions and what they mean |
| `ShAppend` | `>>` and `>` in the shell's parser |
| `Grep` | the backtracking matcher against a declarative reading of patterns |

Code that changes state is a class whose fields hold sequences and maps of records: a C pointer into a table is an
index, and a linked list is the sequence of its link fields. Every method is proved against pure predicates and
functions of those values, and the lemmas are about them. Where a record stands for memory that C code reads as another
type (log header, indirect block, on-disk inode, bitmap), the conversion is written out on bytes. A C `panic` is either
a precondition, or an outcome of the method with its exact condition.

The results to look at first: what any crash leaves (`LogRun.RunCrash`, `Log.Log.Recovers`, `FsCrash.OperationsSurvive`), the reservation
and buffer conditions over all runs (`LogProto.ReservationExact`, `LogProto.CommitExact`, `LogProto.BreadExact`), `filewrite` and its
share of the log (`Fs.FileSystem.Filewrite`, `FileSpec.OpSize`), the soundness of the heap under `malloc` and `free` (`Umalloc.Heap.Take`, `Umalloc.FreedSound`), address spaces from `setupkvm` to `freevm`
(`Vm.Machine.Copyuvm`, `Vm.Machine.Life`), the process tree (`ProcSpec.ExitKeeps`, `ProcSpec.Root`), proportional share
(`Stride.ProportionalShare`, `Stride.PickLevelExact`), the parser (`ShGrammar.Grammar`, `ShGrammar.Rendered`, `Sh.Parsecmd`) and the
matcher (`Grep.Match`).

## Where the code does not do what is promised

- **Out of cache buffers.** While other processes hold r buffers, `commit()` of n blocks succeeds exactly when n + r < NBUF
  (`Log.Commit`, `Log.Log.FinishCommit`), so with a log of two blocks or more the commits of all legal runs do exactly when
  min(LOGSIZE, log.size - 1) + r < NBUF (`LogProto.CommitExact`). Outside commit, while u buffers of blocks that are not in the log are
  held, by readers or by the operations themselves, `bread` of one more such block finds a buffer in all legal runs exactly when
  min(LOGSIZE, log.size - 1) + u < NBUF (`LogProto.BreadExact`, `Log.Log.Read`). The log that `mkfs` makes is just small enough for
  commits if nobody else holds a buffer (`LogProto.MkfsCommitFits`), but a single reader that holds one is too many when three
  operations have logged 29 blocks (`LogProto.MkfsReaderPanics`), and so is one block that one of the three operations still
  holds when another of them reads (`LogProto.MkfsBreadPanics`). With `log.size >= 31` a full log of 30 blocks panics by itself
  (`LogProto.FullCommitPanics`).
- **Log reservation.** `begin_op` reserves against LOGSIZE, `log_write` also checks `log.size - 1`, and `mkfs` sets `nlog = LOGSIZE`.
  New blocks always find a slot exactly when `log.size - 1 >= LOGSIZE` (`LogProto.ReservationExact`); `LogProto.SmallLogPanics` gives
  the run that fails otherwise. Even with a large enough log, a write that would only be absorbed panics when the log is
  full (`LogProto.AbsorbedWritePanics`). All these runs write blocks behind the log.
- **The share of an operation.** `param.h` says that no operation writes more than MAXOPBLOCKS blocks. A chunk of `filewrite` does not,
  on any disk (`FileSpec.OpSize`). An operation that frees a file in `iput` stays within that exactly when the file's
  blocks have their bits in fewer than MAXOPBLOCKS bitmap blocks (`Fs.FileSystem.PutOp`), as on every disk with at most nine of
  them; `FileSpec.SpreadTooBig` is a file on a larger disk for which it does not.
- **malloc of nearly 4 GB.** The unit count wraps: the block has room exactly when `nbytes <= 2^32 - 8` (`Umalloc.RoomExact`). `sbrk`
  receives the size it was meant to exactly when that is below 2^31 (`Umalloc.SbrkArgExact`). Otherwise it moves the break down
  or not at all, and the heap is sound afterwards only if sbrk failed and there was no heap yet (`Umalloc.Heap.Grow`).
- **growproc to zero and below.** Shrinking a process to exactly 0 frees its pages but reports failure and keeps the old size. Shrinking
  it by more than its size reports success and changes nothing (size 4096, n = -8192). The result 0 means that the size has
  changed by n exactly when not 0 < sz and sz + n < 0; the present pages stay exactly those below the size unless
  sz > 0 and sz + n = 0 (`Vm.Machine.Growproc`).
- **kill of an unused slot.** `kill` compares pids without looking at the state, `wait` leaves pid 0 and a failed fork leaves its pid in
  the slot. Unused slots stay unmarked exactly when the first slot with the pid is in use, which while pids are distinct means
  that no unused slot has it (`Proc.Ptable.Kill`), and when a failed fork's slot had not been killed (`Proc.Ptable.ForkFail`). `kill(0)` on the first table marks slot 1, and the next process made there is born
  killed (`Proc.BornKilled`).
- **Pids run out.** The process tree and one wait for each process hold for ever, whatever `nextpid` does (`Proc.Ptable.Allocproc`,
  `ProcSpec.AllocKeeps`). A child's pid exceeds its parent's exactly when `nextpid` has not overflowed since the parent was made
  (`Proc.Ptable.ForkStart`), and pids in use stay distinct exactly when `allocproc` takes one that no slot has
  (`Proc.Ptable.Allocproc`), which is sure for the first 2^32 of them (`ProcSpec.ClearUntil`). `ProcSpec.PidsWrap` has tables in which a
  child's pid is -2^31, is fork's error result -1, and is init's.
- **Killed pipe writer.** A writer that fills the ring and then gives up because it was killed skips the wakeup. Sleeping readers keep
  their reason to sleep exactly when this does not happen (`Pipe.PipeBuf.Write`); `Pipe.LeftAsleep` is the run with 513 bytes.
- **`>>` in the shell.** In every text, a `>` that stands alone may be written `>>`: the tree, its words and modes, or the panic, are
  the same (`ShAppend.AppendIsWrite`), so nothing is ever appended.
- **global_pass.** Where the project text asks for one addition of the global stride a tick, a turn of the scheduler adds it twice. The
  effect is that of one addition exactly when no ticket competes, and then the stride is a stale one, or more than 1024 do,
  and the stride is 0 (`Stride.Scheduler.Pick`).
- **Overflow of a pass.** A pick keeps the passes within a stride of each other exactly when the pass it advances does not
  overflow an int or nobody else is runnable (`Stride.PickLevelExact`).

## Model

| member | source | states |
|---|---|---|
| Bytes.WordOfPut | p2/solution/fs.c:393-396 | storing one 32-bit word of a block changes that word and no other |
| Bytes.WordOfPuts | p2/solution/fs.c:233-233 | storing a run of words changes exactly those words |
| Bytes.BitOfPut | p2/solution/fs.c:67-71 | setting or clearing one bitmap bit changes that bit and no other |
| Bytes.WordBytes | p2/solution/fs.c:220-236 | a word is four bytes, the least significant first |
| Bytes.BitPlace | p2/solution/fs.c:66-68 | bit b of a bitmap block is bit b % 8 of byte b / 8 |
| Memide.Disk.Iderw | p2/solution/memide.c:38-60 | a dirty buffer is written, any other is filled; flags, disk and the write record afterwards |
| Memide.ApplyConcat | p2/solution/memide.c:52-59 | the effect of a sequence of block writes composes |
| Bio.PushFront | p2/solution/bio.c:50-54 | the four link assignments insert a buffer behind the head and keep both directions of the list |
| Bio.Unlink | p2/solution/bio.c:132-133 | the two assignments remove a buffer and keep the list |
| Bio.Touch | p2/solution/bio.c:132-137 | brelse's six assignments keep every buffer in the list once and move one to the front |
| Bio.UpdateOne | p2/solution/bio.c:96-116 | changing one cached buffer keeps key uniqueness, marks and agreement with the logical disk |
| Bio.Rekey | p2/solution/bio.c:81-89 | taking over an idle buffer for an uncached block caches no block twice |
| Bio.BufferLeft | p2/solution/bio.c:81-92 | fewer busy blocks than buffers leave one that bget can recycle |
| Bio.NoBufferLeft | p2/solution/bio.c:81-92 | as many pinned or locked blocks as buffers leave none |
| Bio.Bcache.constructor | p2/solution/bio.c:38-56 | binit links all buffers into one list, nothing cached |
| Bio.Bcache.Lookup | p2/solution/bio.c:68-76 | the forward walk finds the block's buffer if and only if it is cached |
| Bio.Bcache.Victim | p2/solution/bio.c:81-91 | the backward walk finds the least recently used idle buffer, or none exists |
| Bio.Bcache.Recycle | p2/solution/bio.c:81-91 | fails exactly when every buffer is busy; otherwise the victim is rekeyed and the cache stays consistent |
| Bio.Bcache.Bget | p2/solution/bio.c:61-93 | panics exactly when the block is not cached and no buffer is idle; otherwise the block's only buffer |
| Bio.Bcache.Take | p2/solution/bio.c:95-106 | the locked buffer holds the logical contents, read from disk only if invalid |
| Bio.Bcache.Bread | p2/solution/bio.c:95-106 | a locked buffer with the logical contents of the block; disk and other holders unchanged |
| Bio.Bcache.CleanIsDisk | p2/solution/bio.c:95-116 | every valid buffer that is neither dirty nor locked equals its disk block |
| Bio.Bcache.OneBuffer | p2/solution/bio.c:61-93 | at most one buffer for a block |
| Bio.Bcache.Store | p2/solution/fs.c:498-500 | a holder's change is a change of one block of the logical disk |
| Bio.Bcache.Bwrite | p2/solution/bio.c:108-116 | exactly this block reaches the disk, with its logical contents, and is unpinned |
| Bio.Bcache.Pin | p2/solution/log.c:231-231 | setting B_DIRTY pins the block and writes nothing |
| Bio.Bcache.Brelse | p2/solution/bio.c:118-141 | lock and reference dropped; without its last reference the buffer is the first of the list and the others keep their order |
| Bio.Bcache.MoveToHead | p2/solution/bio.c:130-138 | the buffer is the first of the list, the others keep their order, and the list stays linked both ways |
| Bio.Bcache.CalmBread | p2/solution/bio.c:61-106 | with every reference a lock: succeeds if pinned and held blocks are fewer than the buffers, panics if they fill the cache and the block is not pinned |
| LogSpec.HeadRoundTrip | p2/solution/log.c:84-113 | read_head finds the count and entries write_head stored |
| LogSpec.CommitLayout | p2/solution/log.c:176-202 | commit's writes one by one: the copies behind the header's block in order, a header that counts and lists the blocks, the copies at home, a header that counts none |
| LogSpec.RecoveryLayout | p2/solution/log.c:115-122 | recovery's writes one by one, from the count, the list and the copies on disk |
| LogSpec.PartialInstall | p2/solution/log.c:68-82 | after any number of installed blocks a replay still gives the same contents |
| LogSpec.RecoveryPrefix | p2/solution/log.c:115-122 | a crash after any write of recovery changes nothing a later replay gives; a full recovery clears the header |
| LogSpec.CrashesKeepHome | p2/solution/log.c:115-122 | the same for any number of crashes inside recovery |
| LogSpec.BeforeHead | p2/solution/log.c:176-190 | until the header write every block outside the log is unchanged |
| LogSpec.CommitIsRecovery | p2/solution/log.c:192-202 | from the header write on, commit is a recovery |
| LogSpec.CommitPrefix | p2/solution/log.c:192-202 | after any prefix of commit's writes a replay gives all old blocks or all new ones, by whether the header was written |
| LogSpec.CrashAtomicity | p2/solution/log.c:68-122 | a crash anywhere in commit, any crashes in recovery and one full recovery leave all old or all new home blocks; new exactly when the header reached disk |
| LogSpec.FullCommit | p2/solution/log.c:192-202 | an undisturbed commit leaves the new contents and an empty log |
| LogRun.RunCrash | p2/solution/log.c:192-202 | over any run of commits, exactly the transactions whose header was written survive, in order and complete |
| LogRun.RunRecovers | p2/solution/log.c:115-202 | a crash after any write of a run of commits recovers the logical disk at the end of the last commit whose header was written |
| LogRun.HistoryStep | p2/solution/log.c:192-202 | one more commit extends the run: the disk is what its writes make of the boot disk, and every logical disk follows from the one before |
| LogProto.BeginKeeps | p2/solution/log.c:124-141 | begin_op keeps: logged blocks plus unused reservations fit in LOGSIZE |
| LogProto.LoggedKeeps | p2/solution/log.c:213-233 | a log_write within budget keeps it, and a new block finds fewer than LOGSIZE logged |
| LogProto.EndKeeps | p2/solution/log.c:143-163 | end_op keeps it, and "log.committing" cannot be reached |
| LogProto.CommittedKeeps | p2/solution/log.c:165-173 | the end of a commit keeps it |
| LogProto.SleepersWillBeWoken | p2/solution/log.c:124-174 | a process asleep in begin_op always has a commit or a running operation that will wake it |
| LogProto.AdmissionExact | p2/solution/log.c:124-141 | after any legal run begin_op admits if and only if no commit runs and full shares of the new and the outstanding operations fit in LOGSIZE next to the logged blocks |
| LogProto.IdleAdmits | p2/solution/log.c:129-140 | with nothing under way begin_op admits at once; who sleeps outside a commit waits for shares that take up the log |
| LogProto.EndExact | p2/solution/log.c:143-174 | the last end_op starts the commit that empties the log and wakes every sleeper; any other wakes them and keeps what is logged |
| LogProto.LogExact | p2/solution/log.c:213-233 | a legal log_write finds a slot, and adds the block if and only if it is not there |
| LogProto.RunKeeps | p2/solution/log.c:124-233 | the reservation invariant over every legal run |
| LogProto.ReservationExact | p2/solution/log.c:132-132 | every new block in every run finds a slot if and only if log.size - 1 >= LOGSIZE |
| LogProto.ReservationSuffices | p2/solution/log.c:213-219 | one direction, for a given run |
| LogProto.SmallLogPanics | p2/solution/mkfs.c:25-25 | for a smaller log, a concrete run of three operations within their budgets, on blocks behind the log, that panics |
| LogProto.AbsorbedWritePanics | p2/solution/log.c:218-230 | with the log full of blocks from behind it, rewriting one of them panics |
| LogProto.RunBound | p2/solution/log.c:213-233 | no legal run records more than min(LOGSIZE, log.size - 1) blocks |
| LogProto.CommitExact | p2/solution/param.h:10-12 | in every legal run commit finds its buffers, while others hold r, if and only if min(LOGSIZE, log.size - 1) + r < NBUF |
| LogProto.BreadExact | p2/solution/bio.c:81-92 | in every legal run with operations under way, bread of a block outside the log finds a buffer, while u such blocks are held, if and only if min(LOGSIZE, log.size - 1) + u < NBUF |
| LogProto.MkfsCommitFits | p2/solution/mkfs.c:25-25 | with the log mkfs makes and nobody else holding a buffer, every commit finds its buffers |
| LogProto.MkfsReaderPanics | p2/solution/mkfs.c:25-25 | with mkfs's log, a legal run of three operations on blocks behind it whose commit panics while one other buffer is held |
| LogProto.MkfsBreadPanics | p2/solution/mkfs.c:25-25 | with mkfs's log, a legal run after which an operation can read one more block if and only if no buffer of an unlogged block is held |
| LogProto.FullCommitPanics | p2/solution/log.c:192-202 | with log.size above LOGSIZE, a legal run of three operations on blocks behind the log whose commit panics by itself |
| Log.CopyToLog | p2/solution/log.c:182-188 | one turn of write_log: copy, one disk write, what others hold stays held; panics exactly when pinned and held blocks fill the cache |
| Log.CopyHome | p2/solution/log.c:74-81 | one turn of install_trans, which also unpins the block |
| Log.WriteLog | p2/solution/log.c:176-190 | the disk writes are the logged contents in order; succeeds exactly when the blocks logged and held by others are fewer than the buffers |
| Log.InstallTrans | p2/solution/log.c:68-82 | the disk writes are the installs in order, and every pin is gone |
| Log.WriteHead | p2/solution/log.c:98-113 | one write of the header block, which counts and lists the logged blocks |
| Log.CommitPoint | p2/solution/log.c:196-197 | write_log and the header write together issue the first half of commit's writes |
| Log.Replay | p2/solution/log.c:198-200 | install_trans and the clearing header write issue the second half |
| Log.Commit | p2/solution/log.c:192-202 | commit issues exactly the writes of the crash model and succeeds if and only if lh.n and the buffers others hold are together fewer than NBUF |
| Log.ReadHead | p2/solution/log.c:84-96 | the block list of the on-disk header |
| Log.RecoverFromLog | p2/solution/log.c:115-122 | recovery issues exactly the writes of the crash model and leaves the replayed disk |
| Log.Log.constructor | p2/solution/log.c:53-66 | initlog leaves a recovered disk and an empty log |
| Log.Log.Recovers | p2/solution/log.c:53-202 | a crash after any write since initlog recovers the logical disk at the end of the last commit whose header was written |
| Log.Log.BeginOp | p2/solution/log.c:124-141 | starts an operation if and only if no commit runs and lh.n + (outstanding + 1) * MAXOPBLOCKS <= LOGSIZE; the protocol's step |
| Log.Log.LogWrite | p2/solution/log.c:213-233 | panics if and only if lh.n has reached LOGSIZE or log.size - 1; otherwise the block is in the list once, at the end if it is new, and pinned |
| Log.Log.Record | p2/solution/log.c:224-230 | log absorption: a block is in the list once |
| Log.Log.Update | p2/solution/log.c:204-212 | bread, change, log_write, brelse: one block of the logical disk changes and the disk does not; panics exactly when the log is full or the block is not cached and no buffer is idle, which while nobody waits is when logged and held blocks fill the cache; that every reference is a lock is kept |
| Log.Log.Read | p2/solution/bio.c:61-106 | bread while nobody waits: panics exactly if the block is not logged and the logged and the other held blocks fill the cache |
| Log.Log.EndOp | p2/solution/log.c:145-163 | one operation less; a commit is due exactly when none is left; the panic is not reached |
| Log.Log.FinishCommit | p2/solution/log.c:165-174 | the commit of the last end_op: exactly when it finds its buffers, its writes, the run it extends, and disk and logical disk agree outside the log |
| Log.Log.Transact | p2/solution/log.c:124-233 | begin_op, up to MAXOPBLOCKS writes, end_op and its commit, alone: panics exactly if the blocks do not fit in the log or the cache; otherwise the disk has the new contents and the run one more transaction of those blocks |
| Log.CommittedView | p2/solution/log.c:192-202 | the committed disk is the logical disk outside the log |
| Log.CommittedCrash | p2/solution/log.c:192-202 | a crash after any write of a commit recovers the logical disk if the header is written and the old disk if not |
| FsSpec.UsedAfterPut | p2/solution/fs.c:79-95 | the bitmap bit of one block changes and no other |
| FsSpec.UsedPlace | p2/solution/fs.h:44-48 | which bit of which byte of the disk says that a block is in use |
| FsSpec.AllocatedIs | p2/solution/fs.c:56-76 | balloc on the disk: this block is in use and zeroed, the use of every other block and every block outside its bitmap block is as before |
| FsSpec.FreedIs | p2/solution/fs.c:80-95 | bfree on the disk: the same for a freed block |
| FsSpec.DataWrite | p2/solution/fs.c:496-503 | writing data or an inode keeps ownership and bitmap consistent |
| FsSpec.LinkInode | p2/solution/fs.c:378-391 | a fresh block in an empty slot of the inode keeps consistency |
| FsSpec.LinkEntry | p2/solution/fs.c:392-397 | a fresh block in an empty indirect entry keeps consistency |
| FsSpec.UnlinkDirect | p2/solution/fs.c:415-420 | freeing a direct block: its bit was set, and consistency is kept |
| FsSpec.TruncateEntry | p2/solution/fs.c:425-428 | freeing an indirect entry: its bit is set, so "freeing free block" is not reached |
| FsSpec.UnlinkIndirect | p2/solution/fs.c:429-431 | freeing the indirect block itself restores consistency |
| FsSpec.OnDiskAfterUpdate | p2/solution/fs.c:220-236 | the inode read back is the inode stored, and its neighbours in the block are untouched |
| FsSpec.DinodeLayout | p2/solution/fs.h:28-36 | where type, major, minor, nlink, size and the addresses are in the 64 bytes of an inode |
| FsSpec.FreedBytes | p2/solution/fs.c:331-347 | an inode has no links if and only if bytes 6 and 7 are 0; freed, bytes 2 to 7 are as before and the others 0 |
| FsSpec.AddressesDistinct | p2/solution/fs.c:362-402 | addresses in two slots of any inodes differ, are data blocks, and are marked in the bitmap |
| FsSpec.TruncFreesExactly | p2/solution/fs.c:410-435 | itrunc clears the bits of exactly the inode's own blocks |
| FsSpec.FreshConsistent | p2/solution/mkfs.c:20-29 | a disk with only metadata in use is consistent |
| FsSpec.BmapTwo | p2/solution/fs.c:386-399 | the two steps through the indirect block together map one file block and move no other |
| FsSpec.ContentsPlace | p2/solution/fs.c:362-402 | byte k of a file is in block addrs[k / 512], or from the 13th block on in the block that the indirect block names |
| Fs.FileSystem.Balloc | p2/solution/fs.c:56-76 | the first free block, marked and zeroed; fails exactly when all blocks are in use |
| Fs.FileSystem.Bfree | p2/solution/fs.c:78-95 | clears one bit of a block in use |
| Fs.FileSystem.Iupdate | p2/solution/fs.c:220-236 | the inode's image in its block |
| Fs.FileSystem.Bmap | p2/solution/fs.c:372-402 | the block of the file, allocated if missing; other files, owners and blocks kept; blocks it logs |
| Fs.FileSystem.Itrunc | p2/solution/fs.c:409-435 | frees exactly this inode's blocks, none twice; empty and saved; every other file and on-disk inode unchanged; logs exactly the bitmap blocks of its blocks and its own block |
| Fs.FileSystem.Iput | p2/solution/fs.c:331-347 | frees exactly the last reference to an inode with nlink 0, which are bytes 6 and 7 on disk: its blocks, its type, its size and its addresses; bytes 2 to 7 and everything else stay |
| Fs.FileSystem.PutOp | p2/solution/file.c:76-78 | a transaction with an iput keeps the file system consistent and its inodes on disk, logs all it changes, and is within MAXOPBLOCKS if and only if the bits of the freed blocks are in fewer bitmap blocks |
| FileSpec.SpreadTooBig | p2/solution/param.h:10-10 | on a disk with free blocks under ten bitmap blocks, a file whose freeing logs more than MAXOPBLOCKS blocks |
| Fs.FileSystem.Save | p2/solution/fs.c:220-236 | a changed inode and its iupdate: on disk and in memory it is this inode, and nothing else has changed |
| Fs.FileSystem.Readi | p2/solution/fs.c:451-479 | -1, or the requested slice of the contents; nothing changes, nothing is allocated |
| Fs.FileSystem.WriteBlock | p2/solution/fs.c:496-503 | one turn of writei's loop writes its bytes and adds at most one data block to the log |
| Fs.FileSystem.Writei | p2/solution/fs.c:481-511 | -1 changes nothing; otherwise contents become prefix, source, rest; other files and inodes unchanged; log space bounded; blocks run out only beyond the old size |
| FileSpec.ContentsBegin | p2/solution/fs.c:470-477 | a file with every block mapped is at most MAXFILE blocks long and its bytes are where bmap says |
| FileSpec.PatchedBytes | p2/solution/fs.c:498-499 | memmove into one block extends the written part of the contents |
| FileSpec.OtherFile | p2/solution/fs.c:372-402 | a file keeps its contents when only other inodes' blocks change |
| FileSpec.WroteAll | p2/solution/fs.c:496-510 | after the loop and the size update: contents, other files, owners and on-disk inodes |
| FileSpec.ReadBack | p2/solution/fs.c:453-511 | reading the range just written gives the bytes written; inside the old size the size is kept |
| FileSpec.WroteMore | p2/solution/file.c:135-151 | consecutive chunks add up to one write, and other files stay as they were |
| FileSpec.SpanStep | p2/solution/fs.c:496-498 | each turn of the loop enters exactly one more block |
| FileSpec.OpSize | p2/solution/file.c:127-133 | on every disk a filewrite transaction logs at most MAXOPBLOCKS blocks: inode, indirect block, data blocks, and a bitmap block for each new one |
| FileSpec.LoggedTurn | p2/solution/fs.c:496-503 | a turn of writei's loop adds its data block, the indirect block and a bitmap block for each block that is new; a write that starts inside a block starts in one the file had |
| Fs.FileSystem.WriteChunk | p2/solution/file.c:140-145 | one transaction: all of the chunk or -1; what it changed is in its log, and how much that is |
| Fs.FileSystem.Filewrite | p2/solution/file.c:115-154 | n exactly when it is not negative and the range fits; the bytes done on failure; the offset; the operations that begin_op and end_op bracket, each a transaction of one more chunk that logs every block it changes, at most MAXOPBLOCKS of them |
| FsCrash.CarriedBy | p2/solution/log.c:213-233 | every group of operations has a commit of exactly the blocks it logged |
| FsCrash.GroupSize | p2/solution/log.c:132-132 | three operations within their shares fit in a log of full size |
| FsCrash.InBudget | p2/solution/file.c:127-133 | a filewrite transaction is within its budget at every block it logs |
| FsCrash.OperationsRun | p2/solution/log.c:143-202 | operations committed in groups are commits that fit the log, and each turns the logical disk before it into the one after it |
| FsCrash.ConsistentSame | p2/solution/fs.h:7-15 | consistency does not depend on the log or the blocks before it |
| FsCrash.OperationsSurvive | p2/solution/log.c:115-202 | any run of operations committed in any groups: a crash after any write, any crashes in recovery and one full recovery leave a consistent file system with its inodes on disk, in the state after the operations of the durable groups |
| FsCrash.FilewriteSurvives | p2/solution/file.c:127-151 | the same for a filewrite: exactly the chunks of the operations in durable groups have been written and every other file is as before |
| Umalloc.UpperLinked | p2/solution/umalloc.c:33-37 | joining with the block above keeps the circular list |
| Umalloc.LowerLinked | p2/solution/umalloc.c:38-42 | joining with the block below keeps it |
| Umalloc.FreedCanonical | p2/solution/umalloc.c:33-42 | after free the list is circular, ordered, and without adjacent free blocks |
| Umalloc.FreedUnits | p2/solution/umalloc.c:33-42 | free moves exactly the block's units to the free list |
| Umalloc.FreedSound | p2/solution/umalloc.c:24-44 | free keeps the whole-heap invariant: free and allocated units partition what sbrk gave |
| Umalloc.TakenWhole | p2/solution/umalloc.c:76-77 | unlinking an exact fit keeps the list |
| Umalloc.TakenTail | p2/solution/umalloc.c:78-82 | cutting the tail off a larger block keeps the list |
| Umalloc.TakenWholeSound | p2/solution/umalloc.c:76-77 | exact fit: the heap invariant with the block allocated |
| Umalloc.TakenTailSound | p2/solution/umalloc.c:78-82 | split: the heap invariant with the tail allocated |
| Umalloc.GrownSound | p2/solution/umalloc.c:54-58 | new memory from sbrk, not yet free, keeps the heap invariant |
| Umalloc.StopsThere | p2/solution/umalloc.c:30-32 | free's search stops at one block of the list and nowhere else |
| Umalloc.RoomExact | p2/solution/umalloc.c:69-69 | a block of the computed size has room if and only if nbytes <= 2^32 - 8, and is then no larger than needed |
| Umalloc.SbrkArgExact | p2/solution/umalloc.c:54-54 | the int argument is the intended size if and only if that is below 2^31 |
| Umalloc.TurnFits | p2/solution/umalloc.c:74-89 | a turn of the list from freep meets a big enough block if and only if there is one |
| Umalloc.Heap.Search | p2/solution/umalloc.c:30-32 | the search terminates at the block below |
| Umalloc.Heap.Join | p2/solution/umalloc.c:33-42 | the header updates of both joins |
| Umalloc.Heap.Free | p2/solution/umalloc.c:24-44 | terminates for every allocated block, keeps the heap, and the block is inside one free block |
| Umalloc.Heap.Sbrk | p2/solution/proc.c:158-175 | where the break is and what memory is left after any argument, and when sbrk fails |
| Umalloc.Heap.Grow | p2/solution/umalloc.c:52-59 | for any unit count: the heap stays sound if and only if the size in bytes is an int, or sbrk fails with no heap yet; otherwise the new block is not memory that sbrk gave |
| Umalloc.Heap.Morecore | p2/solution/umalloc.c:46-61 | null exactly when sbrk fails; otherwise the list now has a big enough block |
| Umalloc.Heap.OwnSbrk | p2/solution/umalloc.c:54-58 | a program may call sbrk itself between two calls: the heap stays sound and does not contain what it got |
| Umalloc.Heap.Scan | p2/solution/umalloc.c:74-89 | one turn finds the first big enough block after freep, or comes back to freep when there is none |
| Umalloc.Heap.Take | p2/solution/umalloc.c:74-89 | malloc's loop terminates with at most one morecore; null exactly when sbrk fails; a block is the end of the first fit after freep, and freep is left before it |
| Umalloc.Heap.Malloc | p2/solution/umalloc.c:63-90 | null exactly when nothing fits and sbrk fails; otherwise a new block of the computed size, the end of the first fit; units obtained |
| VmSpec.Allocated | p2/solution/kalloc.c:82-95 | taking the head of the free list keeps every frame free once or owned once |
| VmSpec.Released | p2/solution/kalloc.c:67-77 | junk fill and pushing a frame keep it |
| VmSpec.LinkTable | p2/solution/vm.c:45-52 | a zeroed frame as page table, with an entry open to users and writable, keeps ownership; no mapping changes |
| VmSpec.UserAccess | p2/solution/vm.c:49-52 | through both levels user code may do exactly what the page's own entry lets it |
| VmSpec.KernelHalf | p2/solution/vm.c:84-115 | the entry of every kernel page: all memory and the devices, the text read-only, nothing open to users |
| VmSpec.MapPage | p2/solution/vm.c:73-73 | storing one entry keeps every present user page in a frame of its own |
| VmSpec.UnmapPage | p2/solution/vm.c:269-276 | clearing an entry gives its frame up |
| VmSpec.DropDir | p2/solution/vm.c:290-297 | a directory without user pages can be given up |
| VmSpec.OtherSpace | p2/solution/vm.c:57-80 | an operation on one directory leaves the mappings and pages of every other as they are |
| VmSpec.DeallocNext | p2/solution/vm.c:266-268 | the skip to the next directory entry misses no present page |
| VmSpec.DeallocStep | p2/solution/vm.c:269-276 | one freed page: exactly its frame and its entry |
| VmSpec.TearStep | p2/solution/vm.c:291-296 | freevm's loop frees each page table once, in use until then |
| VmSpec.WithoutNew | p2/solution/vm.c:283-298 | giving up a new directory leaves the frames owned before, with their contents |
| VmSpec.KernelStep | p2/solution/vm.c:105-115 | each kmap entry completes the kernel half up to the next |
| VmSpec.KernelSpent | p2/solution/vm.c:105-131 | each kmap entry takes exactly the page tables that are missing, 64 in all |
| VmSpec.TakenTurn | p2/solution/vm.c:57-80 | one more page takes its frame and, if it is the first under its directory entry, a page table; too few for it are too few for the range |
| VmSpec.AllocUndone | p2/solution/vm.c:235-246 | the way out of memory unmaps only what the call mapped |
| VmSpec.CopiedAll | p2/solution/vm.c:325-340 | filled pages are copies with the parent's flags |
| VmSpec.CopiedAccess | p2/solution/vm.c:313-345 | user code may do in the child exactly what it may do in the parent, and nothing beyond the copied pages |
| Vm.Machine.Kalloc | p2/solution/kalloc.c:79-95 | null exactly when no frame is free; otherwise the first, unchanged |
| Vm.Machine.Kfree | p2/solution/kalloc.c:59-77 | the frame points to the old head, holds 0x01010101 in every other word and is the new head; other frames stay |
| Vm.Machine.Freerange | p2/solution/kalloc.c:46-53 | frees exactly the frames wholly inside the range |
| Vm.Machine.Walkpgdir | p2/solution/vm.c:32-55 | the page table of an address, under an entry with exactly PTE_P, PTE_W and PTE_U; allocation changes no mapping; null exactly without one |
| Vm.Machine.Mappages | p2/solution/vm.c:57-80 | the first k pages mapped, all of them exactly if there is a frame for each missing page table; what that takes; nothing else changes |
| Vm.Machine.Setupkvm | p2/solution/vm.c:117-136 | exactly the kernel half, no page of which user code may use, or null with every frame back, exactly if fewer than 65 frames are free |
| Vm.Machine.Deallocuvm | p2/solution/vm.c:251-279 | exactly the present pages of the range are unmapped and their frames freed |
| Vm.Machine.Freevm | p2/solution/vm.c:281-298 | frees exactly what belongs to the directory, nothing twice |
| Vm.Machine.Allocuvm | p2/solution/vm.c:219-249 | zeroed pages that user code may read and write for the whole range, exactly if there are frames for the pages and the missing page tables, or no page of it |
| Vm.Machine.Copyuvm | p2/solution/vm.c:313-345 | the child maps copies with the parent's flags in frames of its own, which user code may use exactly as in the parent, and the kernel half; or every frame is back, exactly if there are too few for directory, page tables and pages |
| Vm.Machine.Growproc | p2/solution/proc.c:156-175 | new size and result in every case, with the exact frames growing needs; when the result says that the size changed by n; when the present pages are those below the size |
| Vm.Machine.Life | p2/solution/proc.c:156-175 | setupkvm, any size changes and freevm return every frame taken and leave all others alone |
| ProcSpec.Root | p2/solution/proc.c:180-312 | following parents from any started process ends at init |
| ProcSpec.AllocKeeps | p2/solution/proc.c:81-92 | allocproc keeps the table invariant, also when the pid counter overflows |
| ProcSpec.AbortKeeps | p2/solution/proc.c:193-198 | a failed fork keeps it |
| ProcSpec.StartKeeps | p2/solution/proc.c:213-221 | starting the child keeps it: live parent, made before the child |
| ProcSpec.SleepKeeps | p2/solution/proc.c:417-452 | going to sleep keeps it; in wait only without a zombie child |
| ProcSpec.ExitSlot | p2/solution/proc.c:250-266 | what exit does to each slot: wakeups, adoption by init, zombie |
| ProcSpec.ExitedAll | p2/solution/proc.c:250-266 | who wakes up in exit: the sleepers on the parent and, if exit leaves a zombie to init, those on init |
| ProcSpec.ExitKeeps | p2/solution/proc.c:250-266 | exit keeps the tree, and no sleeper in wait has a zombie child |
| ProcSpec.ReapKeeps | p2/solution/proc.c:287-299 | wait frees a zombie that was never returned before |
| ProcSpec.StirKeeps | p2/solution/proc.c:457-497 | wakeups, kills and rescheduling keep the invariant |
| ProcSpec.WrapOrder | p2/solution/proc.c:90-90 | of two pids handed out less than a turn of the counter apart, the later is greater if and only if the counter has not overflowed in between |
| ProcSpec.ClearUntil | p2/solution/proc.c:90-90 | a pid in use is in no other slot as long as at most 2^32 - 1 have been handed out |
| ProcSpec.TwoSound | p2/solution/proc.c:180-312 | the table of init and its n-th process is sound for every n |
| ProcSpec.PidsWrap | p2/solution/proc.c:90-90 | the n for which that process has a pid below its parent's, the pid -1, and init's pid |
| Proc.Ptable.constructor | p2/solution/proc.c:118-154 | after userinit the invariant holds |
| Proc.Ptable.Wakeup1 | p2/solution/proc.c:454-465 | every sleeper on the channel and nobody else |
| Proc.Ptable.Kill | p2/solution/proc.c:476-497 | -1 exactly when no slot has the pid; otherwise the first such slot is killed, runnable if it was asleep and else in its state, with pid, parent and channel as before; while pids are distinct a process in use is found by its own; unused slots stay unmarked exactly when the slot found is in use |
| Proc.Ptable.Schedule | p2/solution/proc.c:335-346 | the first runnable process from a slot on gets the processor, or there is none |
| Proc.Ptable.Sleep | p2/solution/proc.c:417-452 | sleeping on another channel keeps it |
| Proc.Ptable.Allocproc | p2/solution/proc.c:68-92 | the first unused slot with the next pid, or none exactly when all are in use; the invariant is kept on any counter; pids stay distinct if and only if no slot had that pid |
| Proc.Ptable.ForkFail | p2/solution/proc.c:193-198 | the slot is unused again, its pid stays |
| Proc.Ptable.ForkStart | p2/solution/proc.c:213-221 | the child is runnable and its pid returned; that exceeds its parent's if and only if the counter has not overflowed since |
| Proc.Ptable.Abandon | p2/solution/proc.c:255-262 | the scan hands all children to init and wakes it exactly when one is a zombie |
| Proc.Ptable.Exit | p2/solution/proc.c:250-266 | state, parent and everything else of each slot after exit; a process exits once |
| Proc.Ptable.Wait | p2/solution/proc.c:270-312 | reaps exactly when a child is a zombie, each process once; fails or sleeps exactly as documented |
| Proc.BornKilled | p2/solution/proc.c:476-497 | kill(0) on the first table, after which the next process is made with killed set |
| Pipe.UsedSteps | p2/solution/pipe.c:85-116 | the full and empty tests and the count across counter wrap-around |
| Pipe.RingPut | p2/solution/pipe.c:93-93 | a byte stored goes to the end of the ring |
| Pipe.RingGet | p2/solution/pipe.c:116-116 | a byte fetched comes from its front |
| Pipe.PipeBuf.constructor | p2/solution/pipe.c:33-36 | an empty open pipe on which nobody sleeps |
| Pipe.PipeBuf.Write | p2/solution/pipe.c:78-98 | as many bytes as fit, in order; the result for any count; who sleeps and wakes; exactly when sleeping readers are left behind |
| Pipe.PipeBuf.Copy | p2/solution/pipe.c:113-117 | the oldest bytes, at most n |
| Pipe.PipeBuf.Read | p2/solution/pipe.c:100-121 | FIFO order, results, wakeups; sleeping readers always have an empty pipe with an open writer |
| Pipe.PipeBuf.NeverBothAsleep | p2/solution/pipe.c:85-111 | no reader and writer sleep at the same time |
| Pipe.PipeBuf.Close | p2/solution/pipe.c:59-75 | the other side is woken; freed when both ends are closed |
| Pipe.LeftAsleep | p2/solution/pipe.c:85-92 | a reader sleeps, a killed writer of 513 bytes fills the pipe, and the reader is still asleep |
| Stride.GrantedStride | p4/solution/sysproc.c:113-138 | whatever count is asked for, the stride is from 32 to 1024 |
| Stride.TicketsChange | p4/solution/proc.c:393-419 | the total changes with a slot by its tickets while it is runnable or running |
| Stride.Scheduler.UpdateStride | p4/solution/proc.c:393-419 | the ticket total over running and runnable processes, the tick of the running ones, and the global stride and pass |
| Stride.Scheduler.Pick | p4/solution/proc.c:458-496 | the process with the least pass, then run_ticks, then pid runs and its pass advances by its stride; global_pass moves by one stride exactly when no tickets compete or more than 1024 |
| Stride.PickKeeps | p4/solution/proc.c:465-491 | a pick keeps pass_i <= pass_j + stride_i for all i, j |
| Stride.PickLevelExact | p4/solution/proc.c:465-491 | a pick keeps it if and only if the pass does not overflow or nobody else is runnable |
| Stride.RunKeeps | p4/solution/proc.c:458-496 | the same over every run, and each pass grows by stride times picks |
| Stride.ProportionalShare | p4/solution/proc.c:458-496 | from equal passes n_i * stride_i <= n_j * stride_j + stride_i |
| Stride.NoStarvation | p4/solution/proc.c:458-496 | each runnable j is picked within the sum over runnable i of stride_j / stride_i + 1 |
| ShSpec.LineOk | p2/solution/sh.c:265-446 | every word of a parsed tree is a maximal run of word characters |
| ShSpec.TreeTerminated | p2/solution/sh.c:448-493 | with a NUL after each word the C strings of the tree are its words |
| ShGrammar.RedirsBack | p2/solution/sh.c:374-397 | a run of redirections is read in order, with its files and modes |
| ShGrammar.SimpleBack | p2/solution/sh.c:415-446 | words and redirections in any order: all the words are arguments, and each redirection is around those before it |
| ShGrammar.SimpleSound | p2/solution/sh.c:415-446 | whatever parses as a simple command is one, with fewer than MAXARGS words |
| ShGrammar.ChainBack | p2/solution/sh.c:344-446 | what a tree of productions derives parses to what it means, and the parser stops behind it |
| ShGrammar.ChainSound | p2/solution/sh.c:344-446 | what parses is derived by a tree of productions that means it |
| ShGrammar.Grammar | p2/solution/sh.c:327-446 | a text parses if and only if a tree of productions derives its lexemes, and to what that tree means |
| ShGrammar.LexBack | p2/solution/sh.c:262-308 | lexemes written with any white space, two words and two > apart, are read back |
| ShGrammar.Rendered | p2/solution/sh.c:327-446 | every tree of productions, with redirections anywhere, pipes and lists with or without parentheses, and any white space, parses to what it means |
| ShGrammar.RoundTrip | p2/solution/sh.c:327-446 | every command of proper words has texts that parse to it |
| ShGrammar.ArgLimit | p2/solution/sh.c:438-440 | a list of plain words parses if and only if there are fewer than MAXARGS |
| ShAppend.LineMoves | p2/solution/sh.c:344-359 | with a lone > doubled, the grammar takes the same way and only shifts the words behind it |
| ShAppend.AppendIsWrite | p2/solution/sh.c:386-394 | every text means the same with >> for a lone >: same panic, or same tree, words and modes |
| Sh.Parser.GetToken | p2/solution/sh.c:265-308 | the loops compute the token function |
| Sh.Parser.Peek | p2/solution/sh.c:310-320 | the loop skips white space and tests one character |
| Sh.Parser.ParseRedirs | p2/solution/sh.c:374-397 | terminates and agrees with the grammar |
| Sh.Parser.ParseBlock | p2/solution/sh.c:399-413 | terminates and agrees with the grammar |
| Sh.Parser.ParseExec | p2/solution/sh.c:415-446 | terminates and agrees with the grammar, redirections among the arguments included |
| Sh.Parser.ParsePipe | p2/solution/sh.c:361-372 | terminates and agrees with the grammar |
| Sh.Parser.ParseLine | p2/solution/sh.c:344-359 | terminates and agrees with the grammar on every string |
| Sh.Nulterminate | p2/solution/sh.c:448-493 | writes NULs only where words end, and after every word |
| Sh.Parsecmd | p2/solution/sh.c:327-342 | succeeds if and only if a tree of productions derives the text; the C strings in the buffer are then the words of the command it means |
| Grep.HereIs | p2/solution/grep.c:84-96 | matchhere is true exactly when a prefix of the text is in the pattern's language |
| Grep.StarIs | p2/solution/grep.c:98-106 | the same for matchstar |
| Grep.PrefixStar | p2/solution/grep.c:98-106 | the language of a starred item, one character at a time |
| Grep.Matchhere | p2/solution/grep.c:84-96 | terminates and computes the recursive predicate |
| Grep.Matchstar | p2/solution/grep.c:98-106 | the loop computes the recursive predicate |
| Grep.Match | p2/solution/grep.c:72-82 | 1 exactly when some part of the text is in the pattern's language, anchored as ^ and $ say |

## Left out

- Bio.Bcache.Lookup: device numbers other than 1, on which iderw panics.
- Bio.Bcache.Recycle: device numbers other than 1 and block numbers past the disk, on which iderw panics.
- Bio.Bcache.Bget: device numbers other than 1 and block numbers past the disk, on which iderw panics.
- Bio.Bcache.Take: waiting in acquiresleep for a buffer that another process holds is not modelled.
- Bio.Bcache.Bread: waiting for a buffer that another process holds is not modelled (the block must not be held), and refcnt is unbounded.
- Bio.Bcache.Brelse: a changed buffer must have been written or pinned before it is released, which every caller in the kernel does.
- Bio.Bcache.CalmBread: processes that hold a reference while they wait for a buffer are excluded; `Bio.Bcache.Bread` covers them.
- Log.Log.FinishCommit: a commit is one step; the buffers that other processes hold stay the same during it, are not blocks of the log or logged, and have not been changed.
- Log.CopyToLog: the two blocks are not held by others, who would only make bread wait.
- Log.CopyHome: the two blocks are not held by others, who would only make bread wait.
- Log.WriteLog: logged blocks and blocks of the log are not held by others, who would only make bread wait.
- Log.InstallTrans: logged blocks and blocks of the log are not held by others, who would only make bread wait.
- Log.WriteHead: the header block is not held by others, who would only make bread wait.
- Log.CommitPoint: logged blocks and blocks of the log are not held by others, who would only make bread wait.
- Log.Replay: logged blocks and blocks of the log are not held by others, who would only make bread wait.
- Log.Commit: logged blocks and blocks of the log are not held by others, who would only make bread wait.
- Log.Log.BeginOp: the sleeping process is recorded, its rescheduling is a new call.
- Log.Log.LogWrite: the operation stays within its MAXOPBLOCKS share, which log_write does not test.
- Log.Log.Transact: no other operation is under way and no buffer is held; the blocks are distinct.
- LogProto.BreadExact: the disk has LOGSIZE blocks behind its log, as in the layout of mkfs; the same holds for the other results over all runs.
- Log.Log.Update: the operation stays within its MAXOPBLOCKS share, and nobody else holds the block.
- FsCrash.OperationsSurvive: operations are done one after the other, in the order in which they end; reads and writes of operations that are outstanding at the same time do not interleave.
- Umalloc.Heap.Malloc: requests of 2 GB or more are covered only if the free list can serve them, because the argument of sbrk is then wrong.
- Umalloc.Heap.Take: requests of 2 GB or more are covered only if the free list can serve them.
- Umalloc.Heap.Morecore: requests of 2 GB or more, for which the argument of sbrk is wrong; `Umalloc.Heap.Grow` says what it leaves, and what free then does with it is not modelled.
- Umalloc.Heap.OwnSbrk: sizes that are no multiple of the header, and giving memory back.
- Umalloc.Heap.Free: memory holds block headers only; what programs keep in their blocks is not modelled.
- FsSpec.FreshConsistent: the root directory and the files that mkfs appends are not modelled; the disk is the one before them.
- Fs.FileSystem.Balloc: the panic "out of blocks" is an outcome after which only the full bitmap is stated.
- Fs.FileSystem.Bmap: a file block number past MAXFILE, the panic "bmap: out of range", is excluded by the callers' checks.
- Fs.FileSystem.Readi: the branch for device files, and files with unmapped blocks below their size, which no caller of writei makes.
- Fs.FileSystem.Writei: the branch for device files, and files with unmapped blocks below their size, which no caller makes.
- Fs.FileSystem.Filewrite: pipes, which are `Pipe.PipeBuf.Write`; the inode lock is taken as held.
- Fs.FileSystem.Iput: the counts of references and the inode cache are a parameter; of operations that free inodes only the iput is modelled, not the path lookup around it.
- Fs.FileSystem: works on the logical disk that `Bio` and `Log` provide; each block update stands for bread, log_write and brelse.
- VmSpec.UserAccess: the accessed and dirty bits that the processor sets in entries are not modelled.
- Vm.Machine.Mappages: of user pages one call maps at most one, as allocuvm and copyuvm do.
- Vm.Machine.Deallocuvm: oldsz is at most KERNBASE, as every caller's is.
- Vm.Machine.Allocuvm: pages of the new range must be absent, which mappages checks only with a panic.
- Vm.Machine.Kfree: frames are numbers rather than addresses, and the lock is taken as held.
- Proc.Ptable.Allocproc: the kernel stack is taken as one allocation that may fail; overflow of the int nextpid wraps around.
- Pipe.PipeBuf.Close: that a sleeping process keeps its end open is a precondition, which the file table's reference counts establish.
- Stride.PickKeeps: the passes have room for the pick; `Stride.PickLevelExact` says what happens without.
- Stride.RunKeeps: the run must be short enough that no pass overflows an int; joins, sleeps and ticket changes between picks are not modelled.
- Stride.ProportionalShare: for runs in which no pass overflows an int.
- Stride.NoStarvation: for runs in which no pass overflows an int.
- Sh.Parser.ParseExec: the tree is a value; the code wraps redirections around a node whose argument list it goes on filling.
- Device drivers, boot code, context switches and memory barriers: a locked section is one step.
- dirlookup, dirlink, path names, the inode cache and the system call layer.
- exec, inituvm and loaduvm: straight-line uses of the modelled operations.
- grep's line buffering, and the p1, p3 and p5 programs.
