# A verified model of a deduplicating distributed file system

The system stores files as lists of content hashes in a transactional key-value store.
Many clients share the store; a file operation is a sequence of separate, automatically
retried transactions.  This project models the parts where correctness is not visible in
any single function and proves what they keep:

- the N-process critical section (Szymanski's algorithm over published keys),
- the reference-counting protocol for shared blocks, with every interleaving of every
  number of clients,
- the data path from byte ranges to hashed blocks and back, and through the caches of any
  number of clients,
- the byte keys: round trips, injectivity, and range scans that return what they should,
- directories with their double index, the life of an inode number, and snapshots.

Concurrent protocols are state machines: one step per committed transaction or scan, and
a run is any list of steps.  Code that updates objects or loops over them is imperative
Dafny, each method proved against a specification function about which the theorems are
proved.  The hash is an arbitrary function; "no collision" is always a hypothesis about
the blocks that occur, never about all blocks.

| file | models |
|---|---|
| `Types.dfy`, `Arith.dfy` | shared vocabulary; division facts |
| `InoSize.dfy` | `InoSize` in `src/fs/inode.rs` |
| `Lock.dfy` | `src/fs/szymanskis_critical_section.rs` |
| `RefCount.dfy`, `KvTransactions.dfy` | the counting protocol, and its transactions as the code runs them |
| `BlockSplitter.dfy`, `FlatFile.dfy`, `WritePath.dfy`, `HashedFile.dfy` | splitting, merging, batching and hashing of writes |
| `FileContent.dfy` | one flush over the counting protocol: what the file contains at every moment |
| `ReadPath.dfy`, `BlockCache.dfy` | reading, and the block cache |
| `ClientRuns.dfy` | the counting protocol together with a cache per client |
| `ByteOrder.dfy`, `Keys.dfy`, `HashScan.dfy` | key order, key codec, chunked range scans |
| `Directory.dfy` | directory transactions, open handles, deletion, inode numbers |
| `Snapshot.dfy`, `SnapshotTree.dfy` | copying one directory; the work list and the whole tree |

Lemmas on which Dafny would start an induction of its own carry `{:induction false}`:
every induction is written out.

Places where the code does less than one would expect are stated exactly, as conditions
that hold if and only if:

- counters with a hash listed twice (`IncrementAddsRequestedIffDistinct`, shown by
  `RepeatedHashIsAddedOnce`),
- a flush that meets a hash which another client has counted and not uploaded
  (`FlushIsSafeIff`, `NewContentIffNothingOwed`, shown by `FinishedFileWithoutBlock`),
- a read between whose two requests a block is reclaimed (`EveryReadReturnsSlice`, exact at
  block boundaries in `EveryAlignedReadIff`, shown by `ReclaimedBetweenRequests`),
- a partial write onto a recorded block that is not found (`FoundIsEnough`,
  `MergeWithoutOldIff`, shown by `LostBlockIsZeroFilled`),
- empty byte ranges (`RangesAgreeIffNonempty`, shown by `NothingIsOneBlockToWrite`),
- validated fetches that return wrong blocks (`ValidatedFetchIff`, `ValidatedFetchInRun`,
  shown by `RejectedBlockIsServedNextTime`),
- locked keys of different lengths (`LockScanIsExact`, shown by `LongerLockKeyIsScanned`),
- scans cut off by a limit that was cut down to 32 bits (`HbGetBlockHashListByBlockRange`,
  shown by `FullWordScansNothing`), and chunk ends that overflow
  (`HbGetBlockHashListByBlockRangeChunked` and, without overflow checks,
  `WrappedLoopEndsIff`, shown by `WholeIndexRangeDoesNotFit`),
- rename onto an existing name (`RenameMovesIffFree`, shown by `RenameOntoItselfRemoves`),
- several links to one inode in a snapshotted directory (`DescribedIffFirstLink`, shown by
  `SecondLinkIsNotDescribed`), and files with blocks beyond their size (`CopiedWholeIff`,
  shown by `BeyondSizeBetweenSteps`).

## Model

| member | source | states |
|---|---|---|
| `Lock.Reachable` | src/fs/szymanskis_critical_section.rs:81-187 | in every state reachable by any schedule of any processes the published keys are the processes' flags and the door-closed, accompanied-waiting-room, smaller-outside and leaver-is-last invariants hold |
| `Lock.AsU8` | src/fs/szymanskis_critical_section.rs:22-46 | the byte of every state reads back as that state |
| `Lock.ReadsAs` | src/fs/szymanskis_critical_section.rs:35-46 | a byte reads as a state exactly if it is that state's byte, and every byte of no state reads as S0 |
| `Lock.TurnKeepsInv` | src/fs/szymanskis_critical_section.rs:81-157 | one scan or one flag write of any process keeps all of these invariants |
| `Lock.MutualExclusion` | src/fs/szymanskis_critical_section.rs:107-144 | at most one process is between the end of `enter` and its return to S0 in `leave` |
| `Lock.LastLeaverEmptiesRoom` | src/fs/szymanskis_critical_section.rs:133-141 | when the last process at S4 leaves, everybody else is at S0 or S1 |
| `Lock.NoDeadlock` | src/fs/szymanskis_critical_section.rs:88-141 | whenever some process is not at S0, some process has an enabled step |
| `Lock.EverybodyGetsThrough` | src/fs/szymanskis_critical_section.rs:81-144 | from every reachable state there is a continuation after which everybody has left again |
| `Lock.EveryFairScheduleDrains` | src/fs/szymanskis_critical_section.rs:81-144 | without newcomers, every schedule of as many rounds as accesses are left, each round giving everybody inside a turn, ends with everybody back at S0 |
| `Lock.BatchFairness` | src/fs/szymanskis_critical_section.rs:89-116 | once somebody shows S4, everybody at S2 or S3 passes the critical section before anybody who was at S0 or S1 gets past S1 |
| `Lock.DoorStaysClosed` | src/fs/szymanskis_critical_section.rs:89-107 | while somebody waits inside behind an S4, no step of anybody lets an outsider in |
| `Lock.NoBypass` | src/fs/szymanskis_critical_section.rs:81-144 | a process that has begun to enter does not get back to S0 without having been in the critical section |
| `Lock.TurnOfOther` | src/fs/szymanskis_critical_section.rs:146-187 | a turn of another process depends on the keys and not on where the contender itself stands |
| `Lock.LockTable.Interfere` | src/fs/szymanskis_critical_section.rs:81-187 | any turns of other processes keep the keys a reachable state of the protocol |
| `Lock.LockTable.ChangeOwnState` | src/fs/szymanskis_critical_section.rs:146-157 | writing the flag, or deleting the key for S0, is a turn of the protocol at a program counter where that flag is due |
| `Lock.LockTable.GetCurrentStatesExcludingMine` | src/fs/szymanskis_critical_section.rs:169-187 | the scan returns the flags of all others, changes no key and is a turn of the protocol |
| `Lock.CriticalSection.ChangeOwnState` | src/fs/szymanskis_critical_section.rs:146-157 | after any interference the flag named by the code is the one the protocol writes next |
| `Lock.CriticalSection.Scan` | src/fs/szymanskis_critical_section.rs:169-187 | after any interference the scan returns the flags of all others, and the program counter moves as they say |
| `Lock.CriticalSection.PollForCondition` | src/fs/szymanskis_critical_section.rs:159-167 | with any scan allowed, polling succeeds if and only if the condition holds on the keys it ends with, and gives up only after all the scans allowed |
| `Lock.CriticalSection.PassDoorIn` | src/fs/szymanskis_critical_section.rs:88-106 | S1, the first poll and S3 are in protocol order and end where S4 is due; it stops only where a condition of the code fails, and never when undisturbed |
| `Lock.CriticalSection.PassWaitingRoom` | src/fs/szymanskis_critical_section.rs:100-105 | S2 is written and the waiting room left only after an S4 was seen |
| `Lock.CriticalSection.PassDoorOut` | src/fs/szymanskis_critical_section.rs:107-116 | S4 is written and the poll passed unless a smaller id is beyond S1 |
| `Lock.CriticalSection.Enter` | src/fs/szymanskis_critical_section.rs:81-119 | whatever the others do in between, a contender that gets through the writes and polls is the only one inside; it fails only on keys that fail one of the poll conditions, so an undisturbed contender enters; a second call changes nothing |
| `Lock.CriticalSection.Leave` | src/fs/szymanskis_critical_section.rs:125-144 | a contender that leaves is back at S0 with its key deleted; it fails only while a larger id shows S2 or S3, so an undisturbed contender leaves |
| `RefCount.ReferenceCountConservation` | src/fs/mini_transaction.rs:513-652 | in every reachable state each counter is the number of mapped addresses plus the references that operations in flight hold |
| `RefCount.DecrementNeverClamped` | src/fs/mini_transaction.rs:629-637 | no decrement in any run meets a counter smaller than itself |
| `RefCount.ExactReclamation` | src/fs/mini_transaction.rs:627-649 | with nothing in flight the stored blocks are exactly the mapped hashes, each under its own hash, and the counters are exact |
| `RefCount.WriteRunsAlone` | src/fs/fuse_to_hashfs.rs:551-583 | a write that runs alone on a store at rest leaves it at rest with exactly the assigned mappings replaced and the size raised to the end of the write |
| `RefCount.ExecKeepsInv` | src/fs/hash_fs_tikv_implementation.rs:156-198 | all interleavings of writes, clears, creations and metadata deletions keep conservation, availability, size coverage and inode numbering |
| `RefCount.AdvanceConserves` | src/fs/mini_transaction.rs:513-652 | each single transaction keeps the conservation law |
| `RefCount.AdvanceKeepsReferencedIsStored` | src/fs/fuse_to_hashfs.rs:557-583 | a counted block is stored or its upload is owed by an operation in flight |
| `RefCount.AdvanceKeepsOwedOnce` | src/fs/fuse_to_hashfs.rs:561-569 | every missing block is owed by one operation only, and a stored one by none |
| `RefCount.StoredIffNotOwed` | src/fs/fuse_to_hashfs.rs:557-569 | in every reachable state a mapped hash leads to a stored block if and only if no operation owes its upload |
| `RefCount.AdvanceKeepsStoredIsReferenced` | src/fs/mini_transaction.rs:640-649 | a stored block lies under its own hash and is counted |
| `RefCount.AdvanceKeepsMappedIsCovered` | src/fs/hash_fs_tikv_implementation.rs:745-763 | every mapped index is below the recorded size, or a write in flight will raise the size over it |
| `RefCount.ReplaceTrades` | src/fs/mini_transaction.rs:547-579 | replacing mappings trades new addresses for displaced ones, hash by hash |
| `RefCount.ClearRemovesEverything` | src/fs/hash_fs_tikv_implementation.rs:200-217 | clearing the blocks below ceil(size / block size) removes every mapping of the file, in any order and whatever else runs |
| `RefCount.ClearedStaysCleared` | src/fs/hash_fs_tikv_implementation.rs:156-198 | without a writer a cleared address never comes back |
| `RefCount.UnlinkGivesBackEverything` | src/fs/hash_fs_tikv_implementation.rs:104-217 | removing a file with nothing else in flight leaves all other mappings, and lowers each counter by exactly the file's addresses with that hash, even with several unlinkers |
| `RefCount.UnlinkDisplacesItsReferences` | src/fs/hash_fs_tikv_implementation.rs:200-217 | with any operations on other files in flight, the clears of a file displace exactly as many references of each hash as the file had |
| `RefCount.ClearUnmaps` | src/fs/hash_fs_tikv_implementation.rs:156-166 | starting a clear adds its operation, and its first transaction unmaps the address and changes nothing else of the store |
| `RefCount.ClearRunsAlone` | src/fs/hash_fs_tikv_implementation.rs:156-198 | a clear that runs alone on a store at rest leaves it at rest without the address |
| `RefCount.ClearingRunExists` | src/fs/hash_fs_tikv_implementation.rs:200-217 | every file of a store at rest has a run that clears all its blocks and ends at rest |
| `RefCount.UnlinkedFileIsGone` | src/fs/hash_fs_tikv_implementation.rs:104-217 | by such a run and the removal of the metadata a file is gone: other files keep mappings and sizes, each counter falls by the file's references, and exactly the blocks of other files stay stored |
| `RefCount.NeverGivesBackWithoutSize` | src/fs/mini_transaction.rs:596-608 | a write whose file has lost its size stops after the replacement for good, and what it displaced stays counted |
| `RefCount.MaxEnd` | src/fs/hash_fs_tikv_implementation.rs:686-697 | the new size is the end of the furthest written block |
| `KvTransactions.IncrementAddsRequestedIffDistinct` | src/fs/mini_transaction.rs:532-541 | the increment adds what was asked for if and only if no hash is listed twice |
| `KvTransactions.RepeatedHashIsAddedOnce` | src/fs/mini_transaction.rs:532-541 | of one reference asked for twice only one is added |
| `KvTransactions.ListedIncrements` | src/fs/fuse_to_hashfs.rs:557-560 | the list that the write path passes asks for one reference per new address |
| `KvTransactions.KvStore.ReadCounters` | src/fs/mini_transaction.rs:518-530 | exactly the listed counters are read |
| `KvTransactions.KvStore.IncrementReferenceCounts` | src/fs/mini_transaction.rs:513-545 | the increment transaction is the protocol's increment and returns the previous counters |
| `KvTransactions.KvStore.ReplaceBlockHashes` | src/fs/mini_transaction.rs:547-579 | for distinct addresses the replace transaction is the protocol's replacement and returns how often each hash was displaced; it fails, and changes nothing, if and only if a displaced hash has the wrong length |
| `KvTransactions.DisplacedStep` | src/fs/mini_transaction.rs:569-577 | one more address displaces at most one more reference |
| `KvTransactions.KvStore.Lower` | src/fs/mini_transaction.rs:629-648 | one counter is lowered, clamped at zero, and takes its block along at zero |
| `KvTransactions.KvStore.DecrementAndDelete` | src/fs/mini_transaction.rs:610-652 | the decrement transaction is the protocol's decrement, in any order of the hash map |
| `KvTransactions.DecrementedStep` | src/fs/mini_transaction.rs:628-648 | decrements of different hashes commute with each other |
| `InoSizes.InoSize.SetSize` | src/fs/inode.rs:172-190 | the block count stays the size in blocks, rounded up |
| `InoSizes.InoSize.BlockWriteSizeUpdate` | src/fs/inode.rs:192-207 | the size grows to the end of the written block, never shrinks, and then counts the block |
| `KvTransactions.KvStore.RaiseSize` | src/fs/mini_transaction.rs:596-608 | sizes only grow |
| `KvTransactions.BlocksToUpload` | src/fs/fuse_to_hashfs.rs:561-567 | exactly the listed blocks whose previous counter was zero are uploaded |
| `KvTransactions.KvStore.HbUploadNewBlock` | src/fs/hash_fs_tikv_implementation.rs:876-884 | the uploaded blocks are stored under their hashes and no others change |
| `KvTransactions.CountAndUpload` | src/fs/fuse_to_hashfs.rs:557-569 | run alone, counting and uploading are the protocol's first two steps |
| `KvTransactions.HbClearDataSingleBlock` | src/fs/hash_fs_tikv_implementation.rs:156-198 | run alone, clearing a block is the protocol's clear; it fails, and changes nothing, if and only if the recorded hash has the wrong length |
| `KvTransactions.CollectAddresses` | src/fs/hash_fs_tikv_implementation.rs:686-697 | the collected list is one entry per block index, and the collected size is the largest end of any of them |
| `KvTransactions.CollectedIsMaxEnd` | src/fs/hash_fs_tikv_implementation.rs:686-697 | the collected size is the size the protocol raises the file to |
| `KvTransactions.WriteHashBlocksToAddresses` | src/fs/hash_fs_tikv_implementation.rs:679-783 | run alone, registering new hashes is the protocol's replace, raise-size and decrement; it fails exactly for a displaced hash of the wrong length, with nothing changed, or a missing size, with only the mappings replaced |
| `BlockSplitter.SplitIndices` | src/fs/hash_block/block_splitter.rs:32-61 | first ++ mid ++ last is the data, mid is a whole number of blocks, and the pieces occupy consecutive distinct blocks |
| `BlockSplitter.SplitPositions` | src/fs/hash_block/block_splitter.rs:32-61 | each piece starts where its first block starts |
| `BlockSplitter.IndexNeverUnderflows` | src/fs/hash_block/block_splitter.rs:40-60 | the index of the last block is never decremented below zero |
| `BlockSplitter.SplitReadEnd` | src/fs/hash_block/block_splitter.rs:80-104 | the read splitter's end is the rounded-up end of the range, or the start block for an empty range |
| `BlockSplitter.SplitWriteEnd` | src/fs/hash_block/block_splitter.rs:63-65 | the write splitter's end is the rounded-up end of the range, and one block for no data |
| `BlockSplitter.RangesAgreeIffNonempty` | src/fs/hash_fs_tikv_implementation.rs:637-640 | reader, writer and server name the same blocks if and only if the byte range is not empty |
| `BlockSplitter.NothingIsOneBlockToWrite` | src/fs/hash_block/block_splitter.rs:63-65 | writing nothing at the start names the first block, reading nothing there names none |
| `BlockSplitter.BlockSplitterWrite.constructor` | src/fs/hash_block/block_splitter.rs:23-30 | the object is filled as the split function says |
| `BlockSplitter.BlockSplitterWrite.GetIrregularStartAndRest` | src/fs/hash_block/block_splitter.rs:32-61 | the field-by-field splitting computes the split function |
| `FlatFile.UpdateDataRangeInVec` | src/fs/hashed_block.rs:27-33 | the vector is zero-filled up to the end of the data and overwritten at the position |
| `FlatFile.MergeWithoutOldIff` | src/fs/hash_block/helpers.rs:45-50 | writing into a missing block gives what writing into the old block gives if and only if the old block has only zeros before the data and nothing after it |
| `FlatFile.UpdatedKeys` | src/fs/fuse_to_hashfs.rs:521-532 | a write updates exactly the blocks that its byte range overlaps |
| `FlatFile.UpdatedValue` | src/fs/hash_block/helpers.rs:38-56 | each updated block is the old block with its part of the data merged in |
| `FlatFile.WriteRefinesOverwrite` | src/fs/fuse_to_hashfs.rs:469-583 | on a dense file, a write not beyond the end gives the dense file of the overwritten and extended content |
| `WritePath.BatchEqualsSequential` | src/fs/fuse_to_hashfs.rs:477-532 | one flush of jobs on disjoint blocks gives the same blocks as the jobs one by one |
| `WritePath.SequentialRefinesFlat` | src/fs/fuse_to_hashfs.rs:477-532 | writes one by one on the blocks are writes one by one on the flat content |
| `WritePath.FlushRefinesFlat` | src/fs/fuse_to_hashfs.rs:469-583 | one flush of disjoint jobs gives the dense file of the content written job by job |
| `HashedFile.GetAndAddOriginalBlockHash` | src/fs/hash_block/helpers.rs:16-36 | the recorded hash is remembered and requested exactly when there is data for the block |
| `HashedFile.NewBlocks.GetAndModifyBlockAndPublishHash` | src/fs/hash_block/helpers.rs:38-56 | the merged block is published under its index and its own hash |
| `HashedFile.NewBlocks.PublishMid` | src/fs/fuse_to_hashfs.rs:526-532 | every whole block of a job is published under its index and its own hash |
| `HashedFile.HandlersSeeOldContent` | src/fs/fuse_to_hashfs.rs:492-524 | looking up hashes first and blocks later merges into the blocks as they were |
| `HashedFile.FoundIsEnough` | src/fs/hash_block/helpers.rs:38-56 | if every recorded block that the jobs merge into was found, the flush computes the blocks of the whole file's content |
| `HashedFile.LostBlockIsZeroFilled` | src/fs/hash_block/helpers.rs:45-50 | one byte written into a recorded block that was not found turns the byte before it into zero |
| `HashedFile.CollectHandlers` | src/fs/fuse_to_hashfs.rs:492-511 | one handler pair per job, and every hash they need is requested |
| `HashedFile.FilterUnchanged` | src/fs/fuse_to_hashfs.rs:540-549 | an index stays if and only if the recorded hash differs from the new one or there is none, with its new hash |
| `HashedFile.ComputeNewBlocks` | src/fs/fuse_to_hashfs.rs:469-549 | the flush assigns a hash to exactly the updated blocks whose recorded hash is not already theirs, and what it hands to the counting protocol is a well-formed write: one file, and a nonempty block under its own hash for every hash |
| `HashedFile.FilterChangesNothing` | src/fs/fuse_to_hashfs.rs:540-549 | the filter changes neither the mapping nor any counter's balance |
| `HashedFile.RecordedChangesResolve` | src/fs/fuse_to_hashfs.rs:540-583 | recording only changed hashes resolves to the updated blocks |
| `HashedFile.FlushKeepsHolding` | src/fs/fuse_to_hashfs.rs:469-583 | after the flush the recorded hashes lead to the blocks of the overwritten content |
| `FileContent.ExecTracks` | src/fs/hash_fs_tikv_implementation.rs:700-710 | among any steps on other files, the file's hashes change in one step, to the assigned ones |
| `FileContent.OldContentUntilReplaced` | src/fs/fuse_to_hashfs.rs:551-583 | at every moment before the mappings are replaced the file holds its old content, whatever runs on other files |
| `FileContent.NewContentIffNothingOwed` | src/fs/fuse_to_hashfs.rs:551-583 | from the replacement on the file holds the overwritten content if and only if no operation owes a block that the file records |
| `FileContent.FlushIsSafeIff` | src/fs/fuse_to_hashfs.rs:557-583 | the file holds the overwritten content from the replacement on, in every run of other files' operations from the flush's next step, if and only if every hash it assigns has counter zero or is stored when it counts |
| `FileContent.SafeFlushHolds` | src/fs/fuse_to_hashfs.rs:557-583 | a flush that counts so leaves the overwritten content at every moment after its replacement, whatever runs |
| `FileContent.UnsafeFlushFails` | src/fs/fuse_to_hashfs.rs:557-569 | any other flush has, after its own next three steps, replaced the mappings and lacks a block |
| `FileContent.RecordedIsStoredIff` | src/fs/fuse_to_hashfs.rs:557-569 | a recorded hash leads to a stored block if and only if nobody owes its upload |
| `FileContent.FinishesWithoutBlock` | src/fs/fuse_to_hashfs.rs:557-583 | a flush whose hash is counted but not stored finishes all five steps and leaves the block missing |
| `FileContent.FinishedFileWithoutBlock` | src/fs/fuse_to_hashfs.rs:557-583 | a run from the empty store, of two clients writing one new block, that ends so |
| `ReadPath.HbReadFromBlocks` | src/fs/parsers.rs:9-38 | the loop collects what each block contributes, short and missing blocks contributing less |
| `ReadPath.ReadReturnsSlice` | src/fs/parsers.rs:9-38 | a read of a dense file is the requested slice cut off at the end of the file |
| `ReadPath.MissingBlockShortens` | src/fs/parsers.rs:9-38 | a read from a block boundary comes out shorter than the slice when a block of the file is missing from its range |
| `BlockCache.Cache.Evict` | src/fs/fuse_to_hashfs.rs:397-403 | anything may be dropped, nothing is altered, and the history says so |
| `BlockCache.Cache.LookUp` | src/fs/fuse_to_hashfs.rs:395-403 | hits are returned as cached and all others are to be fetched; a cached block is missed only if it was evicted meanwhile |
| `BlockCache.Cache.InsertFetched` | src/fs/fuse_to_hashfs.rs:414-416 | the cache takes up exactly the server's answers for uncached hashes, under any eviction |
| `BlockCache.Cache.InsertNewBlocks` | src/fs/fuse_to_hashfs.rs:535-537 | the cache takes up exactly the blocks of the write, each under its own hash, under any eviction |
| `BlockCache.Cache.HbGetBlockDataByHashesCached` | src/fs/fuse_to_hashfs.rs:391-436 | returns hits and stored blocks and fails exactly on a mismatch in what was fetched; every answer is cached, and otherwise entries only vanish |
| `BlockCache.Cache.HbReadData` | src/fs/fuse_to_hashfs.rs:247-271 | the read is the read function on what the cache found |
| `BlockCache.FetchFailsIff` | src/fs/fuse_to_hashfs.rs:391-436 | a fetch fails if and only if validation is on and something fetched lies under a wrong hash; else it returns the cached bytes for hits and the server's for the others |
| `BlockCache.HonestFetch` | src/fs/fuse_to_hashfs.rs:391-436 | with honest blocks a fetch succeeds, returns each block under its own hash, and returns the store's bytes for every stored hash |
| `BlockCache.ReadIsTransparent` | src/fs/fuse_to_hashfs.rs:247-271 | whatever was cached or evicted, a read of a file holding `f` returns the slice of `f` |
| `BlockCache.AlignedReadIsSliceIff` | src/fs/fuse_to_hashfs.rs:247-271 | a read from a block boundary returns the slice if and only if every block of its range was found |
| `BlockCache.ValidatedFetchIff` | src/fs/fuse_to_hashfs.rs:414-429 | with validation a fetch fails or returns only blocks under their own hashes if and only if something fetched is wrong or everything found in the cache is right |
| `BlockCache.WrongIffSpoilt` | src/fs/fuse_to_hashfs.rs:414-429 | after any history a cached block is wrong if and only if a wrong one was fetched and neither an eviction nor a right block came since |
| `BlockCache.ValidatedFetchInRun` | src/fs/fuse_to_hashfs.rs:414-429 | the exact condition for a validated fetch in terms of the cache's history |
| `BlockCache.RejectedBlockIsServedNextTime` | src/fs/fuse_to_hashfs.rs:414-429 | a block rejected by validation is returned without an error by the next fetch |
| `ClientRuns.RunIsOk` | src/fs/fuse_to_hashfs.rs:535-569 | in every run of the store and any number of caching clients, with commits between an answer and its caching, store and caches hold only blocks that clients computed, each under its own hash |
| `ClientRuns.AnswersCanBeCached` | src/fs/fuse_to_hashfs.rs:411-416 | in every run an answer of any earlier moment can still go into any client's cache |
| `ClientRuns.AlwaysHonest` | src/fs/fuse_to_hashfs.rs:391-436 | what a client found in its cache at any earlier moment agrees with the store now |
| `ClientRuns.EveryFetchIsHonest` | src/fs/fuse_to_hashfs.rs:391-436 | in every run every fetch of every client succeeds and returns the store's bytes, each block under its own hash, if the computed blocks do not collide |
| `ClientRuns.FetchAgrees` | src/fs/fuse_to_hashfs.rs:391-436 | a fetch returns exactly what was cached or is stored now, with the bytes that the store of any other moment has under the same hash |
| `ClientRuns.EveryReadReturnsSlice` | src/fs/fuse_to_hashfs.rs:247-271 | hashes learnt at one moment, cache looked up at another, store asked at a third: if every block of the range is cached or stored then, the read returns the slice of the content at the first moment, whatever was overwritten, reclaimed or evicted in between |
| `ClientRuns.EveryAlignedReadIff` | src/fs/fuse_to_hashfs.rs:247-271 | for reads from a block boundary that condition is also necessary |
| `ClientRuns.ReclaimedBetweenRequests` | src/fs/fuse_to_hashfs.rs:247-271 | a run in which the first of two blocks is reclaimed between the requests, and the read returns two bytes of the second block for one of each |
| `ClientRuns.CacheHasHistory` | src/fs/fuse_to_hashfs.rs:391-436 | a client's cache in a run is what its history makes of an empty cache, as in the cache object |
| `ByteOrder.ReadAfterWrite` | src/fs/key.rs:121-132 | reading a written number gives the number |
| `ByteOrder.WriteAfterRead` | src/fs/key.rs:121-132 | writing a read number gives the bytes |
| `ByteOrder.NumbersDecide` | src/fs/key.rs:130-132 | big-endian numbers sort like the numbers in front of any suffixes |
| `Keys.KindOf` | src/fs/key.rs:96-98 | a kind is found under its identifier and under no other |
| `Keys.MetaOf` | src/fs/key.rs:100-102 | a metadata kind is found under its identifier and under no other |
| `Keys.HashedMetaOf` | src/fs/key.rs:108-110 | a hashed-block kind is found under its identifier and under no other |
| `Keys.IdentifiersAreNumbered` | src/fs/key.rs:95-112 | identifiers number the variants in the order of their declaration |
| `Keys.ScopedKeyBuilder.KeyLockState` | src/fs/key.rs:381-389 | appends the lock key |
| `Keys.ScopedKeyBuilder.InodeX` | src/fs/key.rs:446-451 | appends the inode metadata key |
| `Keys.ScopedKeyBuilder.OpenedInode` | src/fs/key.rs:483-487 | appends the open-handle key |
| `Keys.ScopedKeyBuilder.BlockHash` | src/fs/key.rs:489-493 | appends the block hash key |
| `Keys.ScopedKeyBuilder.NamedHashedBlockX` | src/fs/key.rs:495-512 | appends the block, usage or named usage key |
| `Keys.ScopedKeyBuilder.DirectoryChild` | src/fs/key.rs:548-553 | appends the directory entry key |
| `Keys.ScopedKeyBuilder.ParentLink` | src/fs/key.rs:555-561 | appends the parent link key |
| `Keys.KeyParser.Start` | src/fs/key.rs:206-219 | checks the prefix and reads the kind, with the code's errors |
| `Keys.KeyParser.ReadBigEndian` | src/fs/key.rs:121-128 | reads eight bytes or fails |
| `Keys.KeyParser.ParseIno` | src/fs/key.rs:245-258 | reads inode and metadata kind, with the code's errors |
| `Keys.KeyParser.ParseKeyHashedBlock` | src/fs/key.rs:275-292 | reads the hash of a block or existence key |
| `Keys.KeyParser.ParseKeyBlockAddress` | src/fs/key.rs:294-302 | reads inode and index of a block or mapping key |
| `Keys.KeyParser.ParseLockKey` | src/fs/key.rs:309-320 | reads the owner of a lock key for the given locked key |
| `Keys.KeyParser.ParseDirectoryChild` | src/fs/key.rs:322-330 | reads parent and name of a directory entry key |
| `Keys.ParseAfterBuild` | src/fs/key.rs:206-330 | parsing a built key gives its components back, for every prefix and hash length |
| `Keys.BuildAfterParseChild` | src/fs/key.rs:322-330 | whatever parses as a directory entry is the key built from what was parsed |
| `Keys.BuildAfterParseAddress` | src/fs/key.rs:294-302 | whatever parses as a block address begins with the key built from it |
| `Keys.StartIff` | src/fs/key.rs:206-219 | bytes start as a kind if and only if they are the prefix, its identifier and the rest, with the error of each other case |
| `Keys.InoIff` | src/fs/key.rs:245-258 | exactly bytes that begin with the inode and a metadata identifier are read so, with the error of each other case |
| `Keys.HashedBlockIff` | src/fs/key.rs:275-292 | exactly bytes that begin with a hash of the right length are read so, with the error of each other case |
| `Keys.AddressIff` | src/fs/key.rs:294-302 | exactly bytes that begin with the inode and the index are read so, with the error of each other case |
| `Keys.LockOwnerIff` | src/fs/key.rs:309-320 | exactly bytes that begin with the locked key and the owner are read so, with the error of each other case |
| `Keys.ChildIff` | src/fs/key.rs:322-330 | exactly the parent followed by the name is read so, with the error of each other case |
| `Keys.BuildIsInjective` | src/fs/key.rs:375-561 | under one prefix and hash length two keys share their bytes if and only if they are the same key |
| `Keys.KeyOrder` | src/fs/key.rs:375-378 | keys under one prefix sort by kind and then by content |
| `Keys.BlockHashRangeIsExact` | src/fs/key.rs:593-597 | a key of any kind lies in the range if and only if it is a mapping key of the inode with an index in it |
| `Keys.DirectoryChildRangeIsExact` | src/fs/key.rs:574-584 | a key of any kind lies in the range if and only if it is an entry of the directory, for names of any length |
| `Keys.ParentLinkScanIsExact` | src/fs/key.rs:563-572 | a key of any kind lies in the range if and only if it is a parent link of the inode |
| `Keys.InodeMetadataRangeIsExact` | src/fs/key.rs:599-602 | a key of any kind lies in the range if and only if it is a metadata or handle key of the inode |
| `Keys.LockScanIsExact` | src/fs/szymanskis_critical_section.rs:169-187 | a key of any kind is scanned and parses as a contender if and only if it is a lock key of the locked key, or its longer locked key and owner continue the locked key with sixteen bytes that are not the maximal identifier |
| `Keys.LockScanAtEqualLength` | src/fs/szymanskis_critical_section.rs:61-73 | among locked keys of one length the scan returns exactly the contenders |
| `Keys.LongerLockKeyIsScanned` | src/fs/szymanskis_critical_section.rs:169-187 | such a longer key is taken for a contender that does not exist |
| `HashScan.Scan` | src/fs/mini_transaction.rs:661-665 | returns the first pairs of the range in key order, all of them if fewer than the limit |
| `HashScan.ScanIsCompleteIff` | src/fs/mini_transaction.rs:661-665 | a scan returns the whole range if and only if the range has no more pairs than the limit |
| `HashScan.OnePairPerIndex` | src/fs/mini_transaction.rs:661-665 | a range holds at most one pair per index |
| `HashScan.CollectHashes` | src/fs/mini_transaction.rs:666-679 | wrong lengths and foreign inodes are skipped, an unreadable key is an error |
| `HashScan.HbGetBlockHashListByBlockRange` | src/fs/mini_transaction.rs:655-682 | never fails when the scanned keys are keys of the file system, and returns exactly the mapping restricted to the range if it has no more pairs than the block count cut down to 32 bits; if all values have the hash length, only then |
| `HashScan.FullWordScansNothing` | src/fs/mini_transaction.rs:661-665 | a range of 2^32 blocks is scanned for no pair, whatever is recorded |
| `HashScan.HbGetBlockHashListByBlockRangeChunked` | src/fs/mini_transaction.rs:684-703 | reading in chunks ends and returns exactly the mapping restricted to the range, if and only if no chunk end overflows |
| `HashScan.WholeIndexRangeDoesNotFit` | src/fs/mini_transaction.rs:692-694 | the range of all indices has a chunk whose end overflows |
| `HashScan.OverflowRestarts` | src/fs/mini_transaction.rs:691-698 | without overflow checks the overflowing round reads nothing and continues near zero |
| `HashScan.WrappedLoopEndsIff` | src/fs/mini_transaction.rs:691-700 | without overflow checks the loop ends if and only if the range is empty or its end is at most the largest u64 that is congruent to its start modulo 2048 |
| `Directory.StartedMiniTransaction.Finish` | src/fs/mini_transaction.rs:122-164 | success commits the buffer, an error rolls it back |
| `Directory.StartedMiniTransaction.MetaMutableReserveNewIno` | src/fs/mini_transaction.rs:205-227 | gives out the root on a fresh file system and the next number otherwise |
| `Directory.StartedMiniTransaction.DirectoryAddChildCheckedExistingInode` | src/fs/mini_transaction.rs:268-287 | an existing entry is returned, a missing inode is an error, otherwise both indexes are written |
| `Directory.StartedMiniTransaction.DirectoryAddChildCheckedNewInode` | src/fs/mini_transaction.rs:289-339 | an existing entry is returned, otherwise description and both indexes are written |
| `Directory.StartedMiniTransaction.DirectoryRemoveChild` | src/fs/mini_transaction.rs:357-374 | removes both indexes of an allowed entry, with the code's errors |
| `Directory.StartedMiniTransaction.DirectoryRemoveChildEmptyDirectory` | src/fs/mini_transaction.rs:376-398 | removes an empty directory's entry, with the code's errors |
| `Directory.StartedMiniTransaction.DirectoryRenameChild` | src/fs/mini_transaction.rs:400-418 | adds the new entry if its name is free and removes the old one |
| `Directory.StartedMiniTransaction.InodeCheckForDeleteAndDeleteAtomicallyDescription` | src/fs/mini_transaction.rs:420-433 | the description goes exactly when no parent link is left |
| `Directory.StartedMiniTransaction.InodeOpen` | src/fs/mini_transaction.rs:435-453 | an open handle is a new entry of the hidden directory |
| `Directory.StartedMiniTransaction.InodeClose` | src/fs/mini_transaction.rs:455-476 | removes the handle; a handle of another inode is an error and rolled back |
| `Directory.StepKeepsInv` | src/fs/mini_transaction.rs:205-476 | every operation keeps index agreement, kind agreement and inode numbering |
| `Directory.CreateMakesFindable` | src/fs/mini_transaction.rs:289-339 | creating under a free name adds exactly the entry, its parent link and the description, with the given kind; a taken name is left alone and reported |
| `Directory.LinkMakesFindableIff` | src/fs/mini_transaction.rs:268-287 | linking adds exactly the entry and its link if the name is free and the inode described, and changes nothing otherwise |
| `Directory.UnlinkRemovesIff` | src/fs/mini_transaction.rs:357-374 | unlinking removes exactly the entry and link of a file or symlink, with the error of each other case |
| `Directory.RmdirRemovesIffEmpty` | src/fs/mini_transaction.rs:376-398 | a directory's entry is removed if and only if it has no children, with the error of each other case |
| `Directory.OpenLeavesHandleIff` | src/fs/mini_transaction.rs:435-453 | opening leaves a handle that refers to the inode if and only if it is described and the identifier free, with the error of each other case |
| `Directory.CloseRemovesHandleIff` | src/fs/mini_transaction.rs:455-476 | closing removes the handle if and only if it is one of this inode, and changes nothing otherwise |
| `Directory.CheckDeleteRemovesIff` | src/fs/mini_transaction.rs:420-433 | a deletion check removes exactly the description of an inode nothing refers to, and changes nothing of a used one |
| `Directory.DoubleIndexAgreement` | src/fs/mini_transaction.rs:257-476 | after any run an entry exists if and only if its parent link does, with the kind of the described inode |
| `Directory.DeletedExactlyWhenUnreferred` | src/fs/mini_transaction.rs:420-433 | after any run a deletion check deletes if and only if no entry and no handle refers to the inode |
| `Directory.DeletionSafety` | src/fs/hash_fs_tikv_implementation.rs:104-146 | once an inode's blocks may be cleared, no continuation of the run describes it or leads to it again |
| `Directory.ReferredStaysDescribed` | src/fs/mini_transaction.rs:420-433 | no step removes the description of an inode that an entry or a handle refers to |
| `Directory.NameLasts` | src/fs/mini_transaction.rs:257-476 | in every run a name and the description behind it last until an operation on that name takes it away |
| `Directory.CreatedLasts` | src/fs/mini_transaction.rs:289-339 | what was created is found under its name, described with its kind, until the name is taken away |
| `Directory.OpenFileLasts` | src/fs/mini_transaction.rs:435-453 | an open file stays described and is not cleared until its handle is closed, whatever is unlinked |
| `Directory.NumbersInTurn` | src/fs/mini_transaction.rs:205-227 | after any run the next number is the root's at first and then one more than the last |
| `Directory.ReservationsAreDistinct` | src/fs/mini_transaction.rs:209-227 | no inode number is given out twice in any run |
| `Directory.RenameMovesIffFree` | src/fs/mini_transaction.rs:400-418 | a successful rename moves exactly one entry if and only if the new name was free or another name of the same item |
| `Directory.RenameFailsIff` | src/fs/mini_transaction.rs:400-418 | a rename fails if and only if the old name is missing, or the new one is free and the inode is not described |
| `Directory.MoveMovesIffFree` | src/fs/mini_transaction.rs:400-418 | the rename transaction moves entry and link to a free name, only removes them for a taken name, and changes nothing when it fails |
| `Directory.RenameOntoItselfRemoves` | src/fs/mini_transaction.rs:400-418 | in any tree, renaming an entry onto itself removes it |
| `Snapshot.DirectoryScanForChildren` | src/fs/mini_transaction.rs:235-255 | lists every child once if they fit the limit |
| `Snapshot.DescribedIffFirstLink` | src/fs/snapshot.rs:130-155 | of several links to one inode in a directory exactly the first copy is described |
| `Snapshot.SecondLinkIsNotDescribed` | src/fs/snapshot.rs:130-155 | the second of two links to one inode gets no description |
| `Snapshot.CreateSnapshot.ReserveNewInos` | src/fs/snapshot.rs:84-92 | of the reserved consecutive numbers none is used by any entry, attribute or block, and numbering stays valid |
| `Snapshot.CreateSnapshot.LinkChildren` | src/fs/snapshot.rs:238-256 | links every child under the new directory with its new number |
| `Snapshot.CreateSnapshot.InodeCloneAttrs` | src/fs/snapshot.rs:94-160 | copies descriptions, inline data and sizes as the fetched maps allow |
| `Snapshot.CreateSnapshot.InodeCloneData` | src/fs/snapshot.rs:162-202 | counts and maps the source's hashes onto the new inode, every counter in step with its mappings |
| `Snapshot.CreateSnapshot.CopyDirectory` | src/fs/snapshot.rs:215-269 | one job links, copies and counts everything directly in one directory and queues its subdirectories |
| `Snapshot.StepCopies` | src/fs/snapshot.rs:213-269 | after one job both directories have the same names with copied items |
| `Snapshot.StaysCopied` | src/fs/snapshot.rs:213-269 | later jobs leave a copied directory alone |
| `Snapshot.FileCloneIsBalanced` | src/fs/snapshot.rs:175-199 | cloning a file onto a fresh inode keeps counters and mappings in step |
| `Snapshot.PlanIsWholeIff` | src/fs/snapshot.rs:168-173 | the hashes read for a file are all of its hashes if and only if none lies beyond one block after its size |
| `Snapshot.StoreIsWithinSize` | src/fs/snapshot.rs:168-173 | which holds in every reachable state of the store without a write between replacement and size update |
| `Snapshot.BeyondSizeBetweenSteps` | src/fs/snapshot.rs:168-173 | a run that stops between replacement and size update, after which a snapshot reads none of the file's hashes |
| `Snapshot.StepKeepsIndexed` | src/fs/snapshot.rs:238-256 | one job keeps entries and parent links in agreement |
| `SnapshotTree.JobsAreBounded` | src/fs/snapshot.rs:209-219 | no directory is queued twice, so the work list ends |
| `SnapshotTree.EveryPathCopied` | src/fs/snapshot.rs:204-273 | at every path both trees have the same kind of item with the same attributes and the hashes read for it, or none |
| `SnapshotTree.CopiedWholeIff` | src/fs/snapshot.rs:162-202 | the copy of a file has all hashes of the file if and only if the file has a size that covers them, or has none |
| `SnapshotTree.SameHashesAtPath` | src/fs/snapshot.rs:204-273 | a snapshot of a store with no write in flight has, at every path to a file with a size, all of that file's hashes |
| `SnapshotTree.CountersRise` | src/fs/snapshot.rs:175-199 | each counter rises by exactly the number of mappings copied |
| `SnapshotTree.RunJobs` | src/fs/snapshot.rs:204-273 | the work list terminates with every queued directory copied |
| `SnapshotTree.DirectoryCopyRecursive` | src/fs/snapshot.rs:204-273 | the copy has at every path the same kind and attributes on new inodes, all hashes of a file exactly when its size covers them, changes nothing old, keeps the double index, and raises each counter by the mappings added |

## Left out

- The TiKV client, backoff, retries, ambiguous commits, gRPC, FUSE adapters, mount options, logging: a commit either happened or did not, and every committed transaction is one step.
- Write skew: transactions are taken to be serializable in the directory part; the deletion check reads keys that it does not write.
- Real hash functions, JSON values, permissions, timestamps, access and modification times: hashes are an abstract function, values are datatypes.
- Lock.CriticalSection.PollForCondition: polls a bounded number of times and reports failure, because the source's loop has no bound of its own; scans are taken to see all contenders, at most 10240.
- FileContent.NewContentIffNothingOwed: speaks about one flush in one replace transaction; with per-hash uploads the flush is several such steps, one per hash.
- KvTransactions.KvStore.ReplaceBlockHashes: addresses are distinct, because what the client library returns for a key asked for twice is not part of this model.
- WritePath.BatchEqualsSequential: jobs that share a block are not covered, because each of them starts from the block before the flush.
- FlatFile.WriteRefinesOverwrite: sparse files and preallocated sizes are not covered, because the reader does not fill in missing or short blocks.
- ClientRuns.EveryAlignedReadIff: for reads that start inside a block the condition is sufficient only, because the bytes that take a missing block's place may happen to be the same.
- HashScan.HbGetBlockHashListByBlockRangeChunked: an overflowing chunk end is an abort, as in a build with overflow checks; for a build without them HashScan.WrappedLoopEndsIff says when the loop ends, not what it then returns.
- Keys.DirectoryChildRangeIsExact: the inode is below the largest u64, because the bound adds one without a check.
- Keys.ParentLinkScanIsExact: the same.
- Keys.InodeMetadataRangeIsExact: the same.
- Directory.DeletionSafety: runs without snapshots; directories removed by rmdir and files unlinked while open are never freed by any step, so only safety is claimed.
- SnapshotTree.DirectoryCopyRecursive: the directories that the origin reaches fit the scan limit, have one place each and no inode twice, names survive the conversion to UTF-8, nobody else writes the destination, and no commit is retried (a retried attribute transaction finds its maps already emptied).
- Block availability while snapshots run next to overwrites: a snapshot may count a block whose data is already gone.
- The whole-file hash and its cache, POSIX locks, pending deletes and named-block key ranges, local storage, the debugger binary: unused, stale or not guaranteed to be current.
- File handle tables, logical inode numbers, object pool, pipeline stage and client multiplexer: bookkeeping of one process, without effect on what is stored.
