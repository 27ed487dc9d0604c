# A model of xv6-riscv in Dafny

xv6 is a small Unix. This repository's copy adds FCFS and multi-level feedback queue schedulers. The
project models its parts with the most state and the hardest invariants, and proves what they are
for:

- the storage stack: a redo log over an LRU buffer cache, and files over a block allocator
  (`Blocks`, `Counting`, `LogSpec`, `BufferCache`, `WriteAheadLog`, `LogReservation`, `FsLayout`,
  `FsSpec`, `DiskLayout`, `InodeFs`, `CrashFiles`);
- Sv39 page tables over the page allocator, and copies between kernel and user memory (`PageSpec`,
  `Vm`, `UserMemory`);
- the user-level memory allocator (`Umalloc`);
- scheduling and sleeping (`Mlfq`, `MlfqRun`, `SleepLock`);
- the virtio disk driver together with its device (`Virtio`);
- two languages: the shell's command line and the patterns of grep (`ShellSpec`, `ShellGrammar`,
  `Shell`, `Regex`).

`Common` and `Params` hold the few definitions and limits that several modules share. Predicates over
whole memories, caches and disks are guarded by `Common.Open`, which is always true: a proof that
needs the details says so by mentioning it.

Code that changes state is a class whose methods keep `Valid()`; loops are loops. Protocols with
several parties are state machines, and their theorems are about every state of every run. Panics of
the source are preconditions, or branches proved unreachable; calls that fail return what the source
returns.

## How the parts fit together

**Log.** `LogSpec` gives the exact sequence of single-block writes that `commit` and
`recover_from_log` issue, and proves that a crash after any number of them, followed by any number of
recoveries that crash in turn, ends with the home blocks either all old or all new, the header write
alone deciding. `WriteAheadLog` has the code over the cache of `BufferCache`; `Commit` and
`RecoverFromLog` are proved to issue exactly those sequences. Its ghost field `flat` is a store
without cache and log: a `bread` always returns the bytes that the last `log_write` put there.

Two facts about the log are sharper than its comments.

- The size check in `log_write` comes before the search for an absorbed block, and it also compares
  with the log size that mkfs writes, 30. With n new blocks per operation, `log_write` can panic
  exactly if min(LOGSIZE, nlog - 1) <= 10 + 2n. Operations that use their full budget of 10 can make
  it panic on any disk; with mkfs's disk nine blocks are safe.
- `commit` needs one free buffer, and it finds one exactly if the transaction is smaller than the
  cache. A transaction that fits the log and fills the cache exists exactly if the log area has more
  than NBUF = 30 blocks (and 30 other blocks exist), so never with mkfs's 30; `FillCache` logs such a
  transaction block by block.

**Files.** `InodeFs.Fs` works on the flat store. A ghost map says which slot of which inode owns a
block, so that no block has two owners, and a file is a byte sequence. `filewrite`'s chunks are shown
to log at most MAXOPBLOCKS blocks each. `CrashFiles` puts log and files together: across any crash,
all files are as before a transaction or all are as after it. That the transaction has logged every
block it changed is a part of `Fs.Valid()` that the calls keep, not a premise, so the theorem is about
any sequence of calls since the last commit. On a disk with one block of free map, as mkfs makes it, a
chunk logs at most seven blocks, and by the result on reservations `filewrite` does not make
`log_write` panic there.

**Page tables.** The free pages are linked through their first words, as in the source. A ghost role
tells for every physical page whether it is free, held by its caller, a table, or a leaf; `Lookup` is the map that a tree stands for, and it is what the hardware's walk over
the encoded 64-bit words finds.

**Scheduler.** In `Mlfq` the scheduler's pass and the interrupt handlers are the steps, and the code
is shown to perform them. A process that waits in a queue has a priority given by a closed formula in
the ticks that have passed. That is not so for every ready process: one that has been woken is not
queued and does not age until the next pass, so that curr_pri * AGING_TIME ticks need not bring it to
queue 0; one that has been preempted may be overdue. `Waits` covers both, counting from the first event
that settles the process. Without a pass the running process can go on for at most its slice, so every
process that is left ready is in queue 0 after curr_pri * AGING_TIME + 15 ticks, plus the ticks that the
scheduler's loop itself may lag behind (`TopSoon`). The 15 cannot be less: `MlfqRun` has a run from
boot, with a scheduler that never lags, in which one tick less is not enough.

**Sleep locks.** Every spinlock operation and every write of `acquiresleep`, `releasesleep`, `sleep`,
`wakeup`, `kill`, `yield` and the dispatcher is a step of its own. Safety is proved for every run. What
the routines achieve is proved by runs: a free lock is acquired in five instructions, a release makes
exactly its sleepers runnable, and a sleeper that is scheduled next has the lock.

**Shell.** `ShellSpec` is the recursive-descent parser on tokens; `Shell` has the code on character
positions and is shown to agree with it. `ShellGrammar` defines the commands of a line without a
parser: the arguments of a simple command are its words that do not directly follow a redirection
symbol, its files are those that do, and pipes, lists, background and blocks are concatenations. A line
is accepted if and only if it is such a concatenation, with that tree.

## Model

| member | source | states |
|---|---|---|
| LogSpec.HeaderRoundTrip | initial-xv6/src/kernel/log.c:86-114 | a header written to a block is read back unchanged |
| LogSpec.RecoveredIsSettled | initial-xv6/src/kernel/log.c:116-123 | recovery gives every home block its logged copy if it is listed, leaves it alone otherwise, and clears the log |
| LogSpec.RecoveryCrash | initial-xv6/src/kernel/log.c:68-123 | a crash between any two writes of recovery does not change what a later recovery produces |
| LogSpec.RecoveryIsIdempotent | initial-xv6/src/kernel/log.c:68-123 | nor does any number of interrupted recoveries |
| LogSpec.CrashBeforeHeader | initial-xv6/src/kernel/log.c:178-198 | a crash before the header write loses the whole transaction |
| LogSpec.CrashAfterHeader | initial-xv6/src/kernel/log.c:198-203 | a crash after the header write loses none of it |
| LogSpec.CommitDone | initial-xv6/src/kernel/log.c:193-203 | the complete sequence of writes leaves all new blocks at home and an empty log |
| LogSpec.CrashAtomicity | initial-xv6/src/kernel/log.c:178-203 | for a crash after any write of commit and any number of crashes of recovery, the completed recovery leaves exactly the old or exactly the new home blocks, decided by the header write |
| BufferCache.MoveRing | initial-xv6/src/kernel/bio.c:125-132 | the six pointer updates move one node of the ring to the front and keep it one ring |
| BufferCache.Everyone | initial-xv6/src/kernel/bio.c:36-56 | the list is a permutation of all buffers |
| BufferCache.CachedOnce | initial-xv6/src/kernel/bio.c:58-89 | at most one buffer holds a block of a real device |
| BufferCache.MoveFront | initial-xv6/src/kernel/bio.c:116-136 | moving a buffer to the front keeps the list sorted by time of release |
| BufferCache.Cache.constructor | initial-xv6/src/kernel/bio.c:36-56 | binit builds the ring of all buffers, none of them in use |
| BufferCache.Cache.Victim | initial-xv6/src/kernel/bio.c:76-88 | the backward scan finds the unreferenced buffer released least recently, and fails only if all are referenced |
| BufferCache.Cache.Get | initial-xv6/src/kernel/bio.c:58-89 | bget finds the cached block or recycles the least recently released buffer; it panics exactly if the block is not cached and every buffer is referenced |
| BufferCache.Cache.LockAndFill | initial-xv6/src/kernel/bio.c:92-103 | bread fills a buffer from disk only if it does not hold its block yet |
| BufferCache.Cache.Bwrite | initial-xv6/src/kernel/bio.c:106-113 | the disk block becomes the buffer's bytes |
| BufferCache.Cache.Brelse | initial-xv6/src/kernel/bio.c:116-136 | the last release makes a buffer the most recently used one; other releases keep the order |
| BufferCache.Cache.Bpin | initial-xv6/src/kernel/bio.c:139-144 | a pin counts as a reference |
| BufferCache.Cache.Bunpin | initial-xv6/src/kernel/bio.c:146-151 | and is taken back by one unpin |
| WriteAheadLog.CommitFindsBuffer | initial-xv6/src/kernel/bio.c:76-88 | with nobody else holding buffers, commit finds a free buffer exactly if the transaction is smaller than the cache |
| WriteAheadLog.StarvesExactly | initial-xv6/src/kernel/log.c:178-191 | some transaction that fits the log leaves commit without a buffer if and only if the log area is larger than the cache and there are blocks enough to fill it |
| WriteAheadLog.FullCache | initial-xv6/src/kernel/bio.c:139-144 | any NBUF different blocks can be pinned so that no buffer is left |
| WriteAheadLog.FillCache | initial-xv6/src/kernel/log.c:214-235 | NBUF rounds of bread, log_write and brelse on such a log are all accepted and leave every buffer pinned |
| WriteAheadLog.CommitKeepsFlat | initial-xv6/src/kernel/log.c:178-203 | the writes of commit change no home block of the flat store |
| WriteAheadLog.Log.Bread | initial-xv6/src/kernel/bio.c:92-103 | bread returns the latest logged bytes of the block |
| WriteAheadLog.Log.LogWrite | initial-xv6/src/kernel/log.c:214-235 | the flat store takes over the buffer's bytes; the block is listed once and pinned once |
| WriteAheadLog.Log.WriteLog | initial-xv6/src/kernel/log.c:178-191 | the log area receives the newest bytes of every listed block, in order |
| WriteAheadLog.Log.WriteHead | initial-xv6/src/kernel/log.c:102-114 | one write, of the header with the current list |
| WriteAheadLog.Log.InstallTrans | initial-xv6/src/kernel/log.c:68-83 | every listed home block receives its log copy, in order, and is unpinned unless recovering |
| WriteAheadLog.Log.Commit | initial-xv6/src/kernel/log.c:193-203 | the block writes issued are exactly those of the crash theorem; afterwards the disk equals the flat store and nothing is pinned |
| WriteAheadLog.Log.ReadHead | initial-xv6/src/kernel/log.c:86-97 | the list in memory becomes the list on disk |
| WriteAheadLog.Log.RecoverFromLog | initial-xv6/src/kernel/log.c:116-123 | the block writes issued are exactly those of the recovery theorems |
| LogReservation.RunInvariant | initial-xv6/src/kernel/log.c:126-175 | over every interleaving, logged blocks plus unused reservations fit LOGSIZE, and commit runs only while no operation is in progress |
| LogReservation.ReachableInvariant | initial-xv6/src/kernel/log.c:126-175 | the same for every reachable state |
| LogReservation.EndNeverPanics | initial-xv6/src/kernel/log.c:146-175 | end_op never finds committing set |
| LogReservation.BeginWaitsForSomeone | initial-xv6/src/kernel/log.c:126-142 | begin_op waits only while an operation or a commit is active |
| LogReservation.BeginsExactly | initial-xv6/src/kernel/log.c:126-142 | begin_op goes ahead if and only if nobody commits and the log holds what is logged and ten further blocks for each operation in progress and the new one |
| LogReservation.CallsDo | initial-xv6/src/kernel/log.c:126-175 | what each of the calls does to the number of operations, the list of blocks and the committing flag |
| LogReservation.ListedOnce | initial-xv6/src/kernel/log.c:214-235 | in every reachable state no block is listed twice |
| LogReservation.TogetherExactly | initial-xv6/src/kernel/log.c:126-142 | k operations can be in progress at once if and only if k is at most three |
| LogReservation.PanicExactly | initial-xv6/src/kernel/log.c:214-235 | if and only if: which log sizes and budgets let some run make log_write panic |
| LogReservation.PanicOnMkfsDisk | initial-xv6/src/mkfs/mkfs.c:25 | with the 30 log blocks of mkfs, exactly the full budget of ten blocks can panic |
| LogReservation.NewBlockPanicsExactly | initial-xv6/src/kernel/log.c:220-223 | the reservation protects every newly logged block if and only if nlog > LOGSIZE |
| FsLayout.TestWithBit | initial-xv6/src/kernel/fs.c:73-76 | setting one bit of a bitmap byte changes that bit only |
| FsLayout.InodeRoundTrip | initial-xv6/src/kernel/fs.c:226-241 | an inode written into its block is read back, and its neighbours are unchanged |
| DiskLayout.InodeBytes | initial-xv6/src/kernel/fs.h:32-39 | struct dinode byte by byte: type, major, minor, nlink at 0, 2, 4, 6, size at 8, address k at 12 + 4k of the 64 bytes from i % 16 * 64 on; iupdate changes no other byte of the block |
| DiskLayout.InodeReads | initial-xv6/src/kernel/fs.h:42-45 | inode i is read from those bytes of block inodestart + i / 16 |
| DiskLayout.BlocksOfFile | initial-xv6/src/kernel/fs.c:382-421 | blocks 0 to 11 of a file are named by the inode, block k by the little-endian word at byte 4 (k - 12) of the indirect block |
| DiskLayout.MapBit | initial-xv6/src/kernel/fs.h:48-51 | block b is in use exactly if bit b % 8 of byte b % 8192 / 8 of block bmapstart + b / 8192 is set |
| DiskLayout.HeaderBytes | initial-xv6/src/kernel/log.c:35-38 | the count at byte 0 and block t at byte 4 + 4t of the header block; write_head changes no byte behind them |
| DiskLayout.HeaderReads | initial-xv6/src/kernel/log.c:86-97 | read_head takes count and blocks from there |
| InodeFs.Fs.Mount | initial-xv6/src/kernel/fs.c:293-318 | the inodes in memory are the ones on disk |
| InodeFs.Fs.RemountSeesSame | initial-xv6/src/kernel/fs.c:226-241 | the disk always holds every inode, so that a remount sees the same files |
| InodeFs.Fs.Balloc | initial-xv6/src/kernel/fs.c:65-88 | a zeroed block that nobody references, or 0 exactly if every block is in use |
| InodeFs.Fs.Bfree | initial-xv6/src/kernel/fs.c:91-105 | exactly one block becomes free; its panic is the precondition |
| InodeFs.Fs.Bmap | initial-xv6/src/kernel/fs.c:382-421 | the n-th block of the file, allocating it and the indirect block if needed; every block keeps one owner |
| InodeFs.Fs.Iupdate | initial-xv6/src/kernel/fs.c:226-241 | the disk inode becomes the one in memory |
| InodeFs.Fs.Writei | initial-xv6/src/kernel/fs.c:505-539 | r bytes spliced in at off, size set to the maximum, other files unchanged, no holes; every copy before r succeeded, and it stops at r only if the next copy fails or the block is not there and the disk is full; how many blocks it logs |
| InodeFs.Fs.Readi | initial-xv6/src/kernel/fs.c:471-498 | the slice of the file, or -1 exactly if the copy of one of its pieces fails |
| InodeFs.Fs.Itrunc | initial-xv6/src/kernel/fs.c:425-453 | exactly the blocks of the inode become free, other files are unchanged |
| InodeFs.Fs.Transaction | initial-xv6/src/kernel/file.c:155-167 | a chunk of at most three blocks' length logs at most MAXOPBLOCKS = 10 blocks, for any disk and offset, and at most six plus the number of free-map blocks |
| InodeFs.Fs.WriteChunk | initial-xv6/src/kernel/file.c:157-174 | after each chunk the file is the original with everything written so far spliced in |
| InodeFs.Fs.FileWrite | initial-xv6/src/kernel/file.c:148-175 | the bytes written so far are spliced in, each transaction logs at most MAXOPBLOCKS blocks, and n is returned exactly if all were written; it stops early only at the first copy that fails, at a block that a full disk lacks, at a transaction of 3072 bytes that would pass the largest file, or at once beyond the end of the file |
| CrashFiles.SameFiles | initial-xv6/src/kernel/fs.c:293-318 | a file system is determined by the blocks from the inode area on |
| CrashFiles.FilesAfterCrash | initial-xv6/src/kernel/log.c:54-65 | whenever commit or recovery crash, the recovered disk holds a sound file system: every file as before the transaction, or every file as after it |
| CrashFiles.CrashedTransaction | initial-xv6/src/kernel/log.c:126-203 | the same for what writei and itrunc have done since the last commit: the recovered files are those at its start or those of the file system in memory |
| CrashFiles.DoCalls | initial-xv6/src/kernel/fs.c:505-539 | any sequence of writei and itrunc has the effect of its answers on the files, one call after the other, and a write is refused exactly if its range is |
| CrashFiles.TransactionSurvives | initial-xv6/src/kernel/log.c:14-22 | for any sequence of calls between two commits, by one or several operations, and any crash: none of them has happened or all of them have |
| CrashFiles.FilewritePanicsExactly | initial-xv6/src/kernel/file.c:148-155 | with mkfs's 30 log blocks, the budget of filewrite's transactions lets log_write panic if and only if the disk has more than three free-map blocks; mkfs's disk has one |
| PageSpec.PteRoundTrip | initial-xv6/src/kernel/vm.c:159-161 | page number and flags survive the encoding as a 64-bit word |
| PageSpec.WordRoundTrip | initial-xv6/src/kernel/vm.c:159-161 | and every word is the encoding of an entry |
| PageSpec.PteBits | initial-xv6/src/kernel/riscv.h:341-352 | V, R, W, X and U are bits 0 to 4 of the word, and the page number is the word shifted right by 10 |
| PageSpec.PxDigits | initial-xv6/src/kernel/riscv.h:355-357 | the three indices are the base-512 digits of the virtual page number, level 2 first |
| UserMemory.HardwareSees | initial-xv6/src/kernel/vm.c:71-103 | a walk over the encoded words of memory, as the hardware does it, with its faults for reserved flags and misaligned superpages, translates exactly as the tables are meant to |
| Vm.Memory.constructor | initial-xv6/src/kernel/kalloc.c:26-40 | kinit makes exactly the pages of the range free |
| Vm.Memory.Kalloc | initial-xv6/src/kernel/kalloc.c:68-82 | the first page of the linked list becomes the caller's, or 0 exactly if there is none; the list goes on with the page it names |
| Vm.Memory.Kfree | initial-xv6/src/kernel/kalloc.c:46-63 | the caller's page becomes free and the head of the linked list: junk, and in its first word the old head |
| Vm.Memory.Walk | initial-xv6/src/kernel/vm.c:85-103 | finds the table for an address; allocating changes no mapping and takes only free pages; fails exactly if the table is missing, with alloc only for lack of memory |
| Vm.Memory.Walkaddr | initial-xv6/src/kernel/vm.c:108-127 | the page of a user mapping, 0 otherwise |
| Vm.Memory.Mappages | initial-xv6/src/kernel/vm.c:142-166 | exactly the pages touched by the range are mapped, to consecutive pages; on failure a prefix of them |
| Vm.Memory.Uvmunmap | initial-xv6/src/kernel/vm.c:170-192 | exactly the range is unmapped, its pages become free or the caller's |
| Vm.Memory.Uvmcreate | initial-xv6/src/kernel/vm.c:196-205 | a new root that maps nothing |
| Vm.Memory.Uvmalloc | initial-xv6/src/kernel/vm.c:225-249 | on success exactly the pages that begin in oldsz to newsz - 1 get a zeroed page of their own and every other mapping is unchanged, so if every byte below oldsz was mapped, every byte below newsz is; on failure, which happens exactly if a call of kalloc finds no page, every address space is as before and every page is used as before or by a table |
| Vm.Memory.Uvmdealloc | initial-xv6/src/kernel/vm.c:255-266 | exactly the pages that begin in newsz to oldsz - 1 are unmapped and freed; every byte below newsz stays mapped as it was |
| Vm.Memory.Freewalk | initial-xv6/src/kernel/vm.c:271-287 | every table below becomes free, nothing else changes, "freewalk: leaf" is unreachable |
| UserMemory.Uvmfree | initial-xv6/src/kernel/vm.c:291-297 | of an address space that maps only pages beginning below sz, all leaf and table pages become free, other address spaces are unchanged, no panic is reached |
| UserMemory.Uvmcopy | initial-xv6/src/kernel/vm.c:305-333 | at every address below sz the child has the parent's byte and flags, on pages disjoint from the parent's, and every other mapping is unchanged; on failure, which happens exactly if a call of kalloc finds no page, no leaf page is kept |
| UserMemory.Copyout | initial-xv6/src/kernel/vm.c:351-371 | equals storing byte by byte through the translation up to the first inaccessible byte; no other byte of any address space changes |
| UserMemory.Copyin | initial-xv6/src/kernel/vm.c:376-396 | the bytes up to the first inaccessible one |
| UserMemory.CopyRoundTrip | initial-xv6/src/kernel/vm.c:351-396 | what copyout has stored is what copyin fetches |
| UserMemory.Copyinstr | initial-xv6/src/kernel/vm.c:402-440 | the bytes up to and including the first NUL; fails exactly if none comes within max accessible bytes |
| Umalloc.OneCircle | initial-xv6/src/user/umalloc.c:24-44 | the free list, followed from base, meets every free block once, in address order, and comes back |
| Umalloc.Merge | initial-xv6/src/user/umalloc.c:33-42 | merging two neighbours keeps every unit in exactly one block |
| Umalloc.Disjoint | initial-xv6/src/user/umalloc.c:63-90 | two blocks never overlap |
| Umalloc.Heap.Below | initial-xv6/src/user/umalloc.c:30-32 | the search terminates at the free block right below, wherever it starts |
| Umalloc.Heap.Free | initial-xv6/src/user/umalloc.c:24-44 | exactly the units of the block become free; the list stays circular, ordered and fully coalesced |
| Umalloc.Heap.Morecore | initial-xv6/src/user/umalloc.c:46-61 | the heap grows by the new units, which are free, and the search can go on at a block that fits |
| Umalloc.SbrkArgumentExactly | initial-xv6/src/user/umalloc.c:52-54 | sbrk's int holds the size that morecore asks for if and only if the request is below 2^31 bytes |
| Umalloc.Heap.Malloc | initial-xv6/src/user/umalloc.c:63-90 | a new block on units that were free or new, whose room behind the header is nbytes rounded up to 16; sbrk is asked at most once, exactly if no free block fits, and malloc fails exactly if it is asked in vain |
| Mlfq.RunKeeps | initial-xv6/src/kernel/trap.c:117-147 | in every state of every run curr_pri is in 0 to 3, num_ticks below the slice, and running plus idle ticks are the lifetime |
| Mlfq.WaitTime | initial-xv6/src/kernel/proc.c:865-870 | waitx's waiting time is the number of ticks lived through without running, so its subtraction never wraps |
| Mlfq.PassResult | initial-xv6/src/kernel/proc.c:559-628 | after a pass every ready process is queued and has waited less than 30 ticks, the dispatched one has the least (curr_pri, intime) and is the first such in the table, and one is dispatched if and only if one was ready |
| Mlfq.ResumedStays | initial-xv6/src/kernel/trap.c:148-163 | the preemption check that a process performs when it is dispatched again finds nobody |
| Mlfq.Interrupted | initial-xv6/src/kernel/trap.c:117-163 | what an interrupt makes of the running process: on a tick with its slice of 1, 3, 9 or 15 used up it is requeued one queue lower; otherwise it loses the CPU, keeping queue and ticks, if and only if somebody is then ready in a higher queue |
| Mlfq.Bystanders | initial-xv6/src/kernel/trap.c:92-115 | and of every other process: sleepers that it is for become ready, and a queued ready one moves up exactly after 30 ticks |
| Mlfq.PassDoes | initial-xv6/src/kernel/proc.c:569-592 | what a pass makes of each process apart from dispatching it |
| Mlfq.Aging | initial-xv6/src/kernel/trap.c:92-115 | while a queued process is left waiting from any point of a run on, its priority and age are given by a closed formula in the ticks that have passed |
| Mlfq.ReachesTop | initial-xv6/src/kernel/trap.c:264-286 | it is in queue 0 if and only if its age and the ticks add up to at least curr_pri * AGING_TIME |
| Mlfq.SettleStep | initial-xv6/src/kernel/proc.c:569-592 | a ready process that is not queued, or overdue, is unchanged by every event but the one that settles it, a pass or for a queued one any interrupt: then its age is 0 |
| Mlfq.Waits | initial-xv6/src/kernel/proc.c:569-592 | for every process left ready from such a state on: unchanged up to the first settling event, and from there on in queue 0 if and only if enough ticks have passed since |
| Mlfq.PassSoon | initial-xv6/src/kernel/trap.c:117-147 | while some process is left ready, the ticks until the next pass are at most what the running process has left of its slice, and those by which the scheduler lags |
| Mlfq.TopSoon | initial-xv6/src/kernel/proc.c:569-592 | every process that is left ready, in whatever position, is in queue 0 after curr_pri * AGING_TIME + 15 ticks and the scheduler's lag |
| MlfqRun.WokenTooLate | initial-xv6/src/kernel/proc.c:718-736 | the bound is met: a run from boot with a scheduler that never lags, in which a woken process with curr_pri 1 is left ready for AGING_TIME + 14 ticks and not promoted |
| Mlfq.Kernel.Topmost | initial-xv6/src/kernel/mlfq.c:30-42 | the waiting process of the queue with the least intime, the first of several |
| Mlfq.Kernel.Choose | initial-xv6/src/kernel/proc.c:596-602 | the waiting process that goes before all others |
| Mlfq.Kernel.Scheduler | initial-xv6/src/kernel/proc.c:559-628 | the code performs the pass of the state machine |
| Mlfq.Kernel.UpdateTime | initial-xv6/src/kernel/proc.c:899-918 | the running process is charged one tick, every other live one an idle tick |
| Mlfq.Kernel.Clockintr | initial-xv6/src/kernel/trap.c:347-353 | one tick is charged, and then the sleepers on ticks wake |
| Mlfq.Kernel.Preempted | initial-xv6/src/kernel/trap.c:322-335 | true if and only if somebody waits in a higher queue |
| Mlfq.Kernel.Timer | initial-xv6/src/kernel/trap.c:264-337 | the timer handler performs the tick of the state machine, which Interrupted and Bystanders describe |
| Mlfq.Kernel.Interrupt | initial-xv6/src/kernel/trap.c:264-337 | so does the handler of another interrupt |
| SleepLock.RunKeeps | initial-xv6/src/kernel/sleeplock.c:21-41 | the invariant of the lock holds in every state of every interleaving |
| SleepLock.MutualExclusion | initial-xv6/src/kernel/sleeplock.c:21-41 | at most one process is between acquiresleep and releasesleep |
| SleepLock.NobodySleeps | initial-xv6/src/kernel/proc.c:690-762 | no lost wakeup: while the lock is free and its spinlock released, nobody sleeps on it or is about to |
| SleepLock.HoldingSleep | initial-xv6/src/kernel/sleeplock.c:43-52 | locked and pid name the process that is inside |
| SleepLock.OnlyWoken | initial-xv6/src/kernel/proc.c:718-762 | in every run a process stops sleeping only when wakeup finds it asleep on the lock or kill is for it, and then it is runnable |
| SleepLock.Acquires | initial-xv6/src/kernel/sleeplock.c:21-31 | acquiresleep of a free lock takes it and changes nothing else |
| SleepLock.FallsAsleep | initial-xv6/src/kernel/proc.c:690-715 | acquiresleep of a taken lock leads to sleep on it, off the CPU and with the spinlock released |
| SleepLock.Resumes | initial-xv6/src/kernel/proc.c:690-715 | a sleeper that has been woken and is scheduled while the lock is free takes it |
| SleepLock.Releases | initial-xv6/src/kernel/sleeplock.c:33-41 | releasesleep frees the lock, makes exactly the processes runnable that sleep on it, and changes nothing else |
| SleepLock.Handover | initial-xv6/src/kernel/sleeplock.c:21-41 | from any state with a holder about to release and a sleeper, some run passes the lock from the one to the other |
| SleepLock.Kills | initial-xv6/src/kernel/proc.c:742-762 | kill makes its target runnable if it sleeps on anything, and changes nothing else |
| Virtio.AvailRoom | initial-xv6/src/kernel/virtio_disk.c:271-277 | the slot written next is not one that the device has still to read |
| Virtio.UsedRoom | initial-xv6/src/kernel/virtio_disk.c:309-324 | the slot that the device writes next is not one that the driver has still to read |
| Virtio.UsedLag | initial-xv6/src/kernel/virtio_disk.c:312 | the 16-bit comparison is true exactly if there are unseen completions, across wrap-around |
| Virtio.Disk.constructor | initial-xv6/src/kernel/virtio_disk.c:61-153 | the initial queue satisfies the invariant |
| Virtio.Disk.AllocDesc | initial-xv6/src/kernel/virtio_disk.c:155-166 | the first free descriptor, or -1 exactly if there is none |
| Virtio.Disk.Alloc3Desc | initial-xv6/src/kernel/virtio_disk.c:199-213 | three different free descriptors, or nothing changed and fewer than three are free |
| Virtio.Disk.FreeChain | initial-xv6/src/kernel/virtio_disk.c:184-197 | following the links frees exactly the three descriptors of the request, without panic |
| Virtio.Disk.Start | initial-xv6/src/kernel/virtio_disk.c:215-269 | a new request in a chain of its own, disjoint from all others, its status 0xff; -1, with nothing changed, only if fewer than three descriptors are free |
| Virtio.Disk.Ring | initial-xv6/src/kernel/virtio_disk.c:271-272 | the head enters the ring and no pending slot is overwritten |
| Virtio.Disk.Publish | initial-xv6/src/kernel/virtio_disk.c:276-277 | the request is offered at the next position, the index wrapping at 2^16 |
| Virtio.Disk.Fetch | initial-xv6/src/kernel/virtio_disk.c:235-265 | the device takes requests in order and reads exactly what was submitted |
| Virtio.Disk.Report | initial-xv6/src/kernel/virtio_disk.c:258-265 | the status byte of a request that the device has taken is 0xff until the device writes 0 |
| Virtio.Disk.See | initial-xv6/src/kernel/virtio_disk.c:294-327 | each completion clears disk in the buffer that was submitted, and the status panic is unreachable |
| Virtio.Disk.Finish | initial-xv6/src/kernel/virtio_disk.c:283-292 | once disk is clear the request has been seen, and its three descriptors become free |
| Virtio.Disk.ReadOrWrite | initial-xv6/src/kernel/virtio_disk.c:215-327 | a whole request on an idle queue: the device is told to read or write the two sectors of the block at the buffer's data, disk is clear at the end, and every descriptor is free again |
| ShellSpec.LexShow | initial-xv6/src/user/sh.c:266-309 | printed tokens are read back |
| ShellSpec.LineBack | initial-xv6/src/user/sh.c:345-447 | the printed tokens of any command tree are parsed back, whatever may follow |
| ShellSpec.RoundTrip | initial-xv6/src/user/sh.c:328-447 | parsing the text of a tree with clean words and at most nine arguments per command gives the same tree; the text holds no NUL |
| ShellSpec.ParsesExactly | initial-xv6/src/user/sh.c:328-447 | a tree is the result of parsing some line without NUL if and only if its words are clean and no command has more than nine arguments |
| ShellGrammar.LexChars | initial-xv6/src/user/sh.c:266-309 | the characters of the tokens, put together, are the line without its blanks |
| ShellGrammar.LexCut | initial-xv6/src/user/sh.c:266-309 | cut where no token goes on, a line has the tokens of its two parts |
| ShellGrammar.SimpleExactly | initial-xv6/src/user/sh.c:416-447 | parseexec, on the tokens alone: the arguments are the words that do not directly follow a redirection symbol, the files those that do, each with its mode, the first innermost |
| ShellGrammar.ParsesGrammar | initial-xv6/src/user/sh.c:328-447 | a line parses to a tree if and only if the tree stands for the line in the grammar of concatenations |
| Shell.GetToken | initial-xv6/src/user/sh.c:266-309 | the next token and its position |
| Shell.Peek | initial-xv6/src/user/sh.c:311-321 | whether the next token begins with one of the characters |
| Shell.ParseLine | initial-xv6/src/user/sh.c:345-360 | terminates and agrees with the grammar, failures included |
| Shell.ParsePipe | initial-xv6/src/user/sh.c:362-373 | the same for pipes |
| Shell.ParseRedirs | initial-xv6/src/user/sh.c:375-398 | the same for redirections |
| Shell.ParseBlock | initial-xv6/src/user/sh.c:400-414 | the same for parentheses |
| Shell.ParseExec | initial-xv6/src/user/sh.c:416-447 | the same for simple commands, with the limit on arguments; what they then are is SimpleExactly |
| Shell.Nulterminate | initial-xv6/src/user/sh.c:449-494 | a NUL at the end of every word of the command, and nowhere else |
| Shell.AllReadBack | initial-xv6/src/user/sh.c:449-494 | then every argument and file name, read as a C string, is its original word |
| Shell.ParseCmd | initial-xv6/src/user/sh.c:328-343 | accepts a line if and only if it is a command of the grammar, with the tree that stands for it, and every word can be read as a C string; so it accepts every printed tree and gives it back |
| Regex.MatchHere | initial-xv6/src/user/grep.c:83-95 | true if and only if some part of the text from here on is in the language of the pattern |
| Regex.MatchStar | initial-xv6/src/user/grep.c:97-105 | true if and only if the rest matches after some number of fitting characters |
| Regex.Match | initial-xv6/src/user/grep.c:71-81 | true if and only if some part of the text, anchored by ^ and $, can be cut into one piece for each item of the pattern |
| Regex.LiteralMatches | initial-xv6/src/user/grep.c:71-95 | a pattern without special characters matches exactly the texts that it occurs in, with ^ those that it begins, with $ those that it ends, with both itself |
| Regex.DotAndStar | initial-xv6/src/user/grep.c:83-105 | a dot matches any one character, and a character with * between ^ and $ matches exactly its repetitions, or anything if it is a dot |

## Left out

Premises and limits of the members above:

- InodeFs.Fs.Writei: a failed copy from user space leaves the buffer untouched; the source's copyin can have copied a prefix.
- InodeFs.Fs.Readi: copies succeed or fail as a whole, as an argument decides.
- InodeFs.Fs.Transaction: that some write logs all ten blocks is not shown.
- CrashFiles.TransactionSurvives: calls of different operations come one after the other; directories and link counts are not part of the files.
- WriteAheadLog.Log.LogWrite: logged blocks lie outside the log area, as every caller in the source respects.
- WriteAheadLog.Log.Commit: readers that hold a buffer during a commit are not interleaved with it; the methods of the log are atomic.
- LogSpec.CrashAtomicity: single-block writes are atomic and reach the disk in the order in which they are issued.
- Vm.Memory.Uvmdealloc: npages is not cut to an int.
- UserMemory.Uvmfree: the trampoline and trapframe pages have been unmapped before, as proc_freepagetable does.
- Umalloc.Heap.Malloc: sbrk's answer is an argument, aligned to a header and above everything it returned before; an sbrk that succeeds has been asked for less than 2^31 bytes, without which it was asked for something else (see SbrkArgumentExactly); the base header lies below the heap; sizes stay below 2^32 units.
- Mlfq.Kernel.Scheduler: one CPU, no interrupt inside a pass, and ticks does not wrap.
- Mlfq.TopSoon: how far the scheduler's loop can lag behind the clock is a parameter; a turn of the loop takes less than a tick.
- Mlfq.Kernel.Timer: a process's own time of sigalarm and wtime, which nothing reads, are not part of the state.
- SleepLock.MutualExclusion: only the holder calls releasesleep; the scan of kill for a pid is one access to the chosen process.
- Virtio.Disk.Start: the caller's buffer is not in another request, as its sleep lock ensures; memory is sequentially consistent.
- Virtio.Disk.Report: the device succeeds in every request that it takes up.

Not modelled:

- Directories, path lookup, link counts and inode allocation.
- Pipes, console, UART, plic, traps other than the scheduler's part of them, boot and assembly.
- The kernel's own page table, uvmfirst and uvmclear, exec and ELF loading.
- The FCFS and round-robin choice of a process, which only add a simple minimum or no order at all, and MLFQ on several CPUs.
- sigalarm and sigreturn, getreadcount, and the counting of interrupt-off sections.
- The line buffer of grep and the execution of shell commands.
- Virtio initialisation, memory fences and the bytes that the device transfers.
