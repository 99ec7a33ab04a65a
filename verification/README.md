# RMDB, modelled and proved in Dafny

RMDB is a small relational engine: record files over a buffer pool, a no-wait lock manager, a redo/undo log with
restart recovery, sorted in-memory indexes, a planner for joins and pull-based executors. This project models the
logic of those layers and proves what they promise. The layers meet in one interface: a table is a map from record
id to record bytes.

`dafny verify dfyconfig.toml` checks everything.

## How it is organised

Transactions and recovery
- `Locking.dfy`, `LockMeaning.dfy`: the lock table, its invariant over every run, the lock manager object, and what the
  modes stand for.
- `Engine.dfy`, `Serializability.dfy`: a state machine whose steps are the separate latched calls of concurrent
  transactions (heap change, log append, flush, lock, unlock); serial equivalence in commit order.
- `LogCodec.dfy`, `LogManager.dfy`: log records as bytes, torn-log parsing, the log buffer object.
- `Recovery.dfy`, `FileRecovery.dfy`, `RecoveryManager.dfy`: analyze, redo and undo, exact from any disk image if and
  only if a condition on the log holds; the same on heap files with the links of their free-page chain, and as an
  object. `ChainFailures.dfy`: files and logs on which the chain ends up bad.
- `LogInvariant.dfy`, `WriteAhead.dfy`: what the log says, and what is on disk, in every state of every interleaving.
- `CrashRecovery.dfy`: crash between any two calls, with any surviving byte prefix of the log and any image the run can
  have left: recovery gives the serial state of the surviving committed transactions if and only if two conditions hold.
- `LogOverRuns.dfy`: the same with the logs of earlier runs in front, whose transaction ids come back.
- `Refinement.dfy`: the objects' operations are steps of the state machine.

Tables, indexes and rollback
- `Heap.dfy`, `LinkedHeap.dfy`, `RecordFile.dfy`, `RecordScan.dfy`, `PageLayout.dfy`: the heap file as a value with a
  list of free pages, with links in any state, as an object with headers and bitmaps, its scan, and its byte layout.
- `Compare.dfy`, `Index.dfy`, `IndexBuild.dfy`, `IndexCreation.dfy`: comparison, composite keys, the sorted entries
  vector and its agreement with the table.
- `ComparisonMeaning.dfy`: comparisons and operators on the integers, floats and strings that the bytes encode.
- `UniqueKeys.dfy`: when row operations are refused, on the table's records alone.
- `HeapRollback.dfy`, `Relations.dfy`, `IndexAgreement.dfy`: the executors' row operations on file and indexes, and
  their exact rollback, for one action, one table and every interleaving of transactions.
- `SystemManager.dfy`, `TransactionManager.dfy`: the same as objects, with begin, commit and abort.

Queries
- `IndexRange.dfy`, `IndexScan.dfy`, `IndexMeaning.dfy`, `SeqScan.dfy`: prefix range search, which conditions it uses,
  and index scan against sequential scan.
- `Planner.dfy`, `TupleLayout.dfy`, `PlanMeaning.dfy`, `PlanRows.dfy`: the join tree, what its nodes compute on tuple
  bytes, and the rows it delivers.
- `CharLengths.dfy`, `EquiJoins.dfy`: CHAR columns of different lengths in comparisons, operand swaps and join queries.
- `NestedLoopJoin.dfy`, `PlanExecution.dfy`: the block nested-loop join as a resumable iterator, and whole executor
  trees run over the files.
- `DateTime.dfy`, `Calendar.dfy`: DATETIME literals, and the calendar behind them.

Storage
- `BufferPool.dfy`, `BufferPoolManager.dfy`: the pool as a state machine that refines a flat page store, and as objects.
- `ReleaseOrder.dfy`: least recently used and pin counts over every run, and the effect of single calls.
- `Types.dfy`, `Integers.dfy`, `Finite.dfy`: shared vocabulary, little-endian integers and counting lemmas.

Objects that the source changes in place are classes; each method is proved against a function on abstract values, and
most theorems are about those functions. The theorems about runs of many transactions are about the state machine of
`Engine.dfy`; `Refinement.dfy` ties the objects' contracts to its steps.

## Where the code falls short of its purpose

Each of these keeps the code as it is, shows a concrete failure, and gives the exact condition.

- Transaction ids start at 0 in every run, and the log of earlier runs is never removed. A crash while the first
  transaction of a run is open undoes the committed first transaction of the run before
  (`LogOverRuns.ReusedIdUndoesCommitted`). Recovery over any such log is exact if and only if every rid is right in the
  sense of `LogOverRuns.RunsExactIff`; with a past of committed transactions and ids that do not come back it is as
  exact as over one run (`LogOverRuns.FreshIdsExactIff`).
- A torn record at the end of the log file is never cut off. Records of the next run that follow one are not parsed
  (`LogOverRuns.TornByteHidesRun`), so its commits are lost; behind whole records they are parsed
  (`LogOverRuns.CrashOverRunsFromBytes`).
- Recovery undoes aborted transactions again without compensation records. A committed write to a rid that an aborted
  transaction wrote before is lost (`Recovery.CommittedUpdateLost`); recovery is exact if and only if that does not
  happen (`Recovery.RecoveryExactIff`, `CrashRecovery.CrashRecoveryIff`).
- `insert_record(rid, buf)` leaves a page that it fills on the free list unless the page is the list's head
  (`Heap.RestoringInsertBreaksChain`, `Heap.InsertAtKeepsIff`). Rollback always meets the good case
  (`IndexAgreement.AgreementInEveryRun`).
- An insert changes the heap before its record is logged. A crash in between, with the page on disk, leaves the
  uncommitted record in the recovered table (`CrashRecovery.UnloggedInsertKept`); recovery is exact if and only if the
  image holds no such insert and the condition above holds (`CrashRecovery.CrashRecoveryIff`).
- Recovery starts redo at the beginning of the log, and its own restoring inserts can break the free-page chain: after
  three pages were filled and lost a record each, the links end in a cycle (`ChainFailures.RecoveryBreaksChain`). A good
  chain stays good if and only if no action fills an existing page other than the head
  (`FileRecovery.ChainSurvivesIff`). The contents are right either way (`FileRecovery.RecoveredContents`).
- The head of that chain reaches the disk only when a file is flushed or closed, so a crash can leave it stale. When the
  pages on disk are up to date recovery repairs nothing: the chain is good afterwards if and only if it was on disk
  (`FileRecovery.StaleLinksStay`), and inserts can fail for good (`ChainFailures.StaleHeaderStays`).
- `pop_conds` gives every same-table comparison to the first table's scan (`Planner.MisplacedComparison`). All conditions
  are covered if and only if there is none on another table (`Planner.MakeOneRel`); with a misplaced condition the plan
  answers the query if and only if there is no answer (`PlanRows.PlanRightIff`).
- Two CHAR columns are compared over the left column's length, and the planner swaps operands. The order of the WHERE
  conditions changes the result (`EquiJoins.WhereOrderMatters`). A comparison orders the values if and only if the
  lengths are equal, or the left one is shorter and the operator is > or <= (`CharLengths.ComparisonExactIff`), and a
  swap keeps its value if and only if they are equal (`CharLengths.SwapKeepsIff`). A query of column equalities is
  answered right on every database if and only if no condition is misplaced and compared columns have one length
  (`EquiJoins.EquiJoinRightIff`). For other WHERE clauses those two conditions are enough, and one comparison alone fails
  without the second; together with conditions that contradict each other a plan can be right without them.
- `fetch_page` loses the frame when the disk read fails (`BufferPool.FailedReadLosesFrame`), and `new_page` maps a page
  twice when its number is still resident (`BufferPool.ComingBackUnmapsPinned`). The exact conditions are
  `BufferPool.FetchKeepsIff` and `BufferPool.NewKeepsIff`.
- A lock upgrade forgets S when IX is requested, and IX when S is (`Locking.SharedLostOnUpgrade`,
  `Locking.UpgradeKeepsHeldIff`).

## Model

| member | source | states |
|---|---|---|
| Locking.GroupIsLeastUpperBound | src/transaction/concurrency/lock_manager.cpp:44-62 | The stored group mode is the least mode that covers every granted request of the queue. |
| Locking.ComputeGroupMode | src/transaction/concurrency/lock_manager.cpp:44-62 | The flag loop computes that least upper bound. |
| Locking.CompatibleSymmetric | src/transaction/concurrency/lock_manager.cpp:15-26 | Compatibility is symmetric over the modes the public calls can request. |
| LockMeaning.CompatibleIff | src/transaction/concurrency/lock_manager.cpp:15-26 | A requestable mode is compatible with a granted one if and only if no access that the one stands for interferes with an access of the other: reading or writing the whole item, or parts of it that are locked one by one. |
| LockMeaning.StrongerIff | src/transaction/concurrency/lock_manager.cpp:28-42 | A held mode counts as strong enough if and only if it allows every access of the requested one. |
| LockMeaning.BelowIff | src/transaction/concurrency/lock_manager.cpp:44-62 | The order of group modes is that of the accesses they allow. |
| Locking.AcquireEffect | src/transaction/concurrency/lock_manager.cpp:64-107 | A granted request keeps the queue invariant, leaves the requester with the held mode if it covers the request and with the requested one otherwise, and changes nobody else's holding. |
| Locking.AcquireRefusesIff | src/transaction/concurrency/lock_manager.cpp:64-107 | A request is refused if and only if another transaction holds an incompatible mode and the requester does not already hold a covering one. |
| LockMeaning.SharedRefusedIff | src/transaction/concurrency/lock_manager.cpp:64-107 | S is refused if and only if the requester holds neither S nor X and another transaction holds X or IX. |
| LockMeaning.ExclusiveRefusedIff | src/transaction/concurrency/lock_manager.cpp:64-107 | X is refused if and only if the requester does not hold X and another transaction holds anything. |
| LockMeaning.IntentionSharedRefusedIff | src/transaction/concurrency/lock_manager.cpp:64-107 | IS is refused if and only if the requester holds nothing and another transaction holds X. |
| LockMeaning.IntentionExclusiveRefusedIff | src/transaction/concurrency/lock_manager.cpp:64-107 | IX is refused if and only if the requester holds neither IX nor X and another transaction holds S or X. |
| LockMeaning.ReadersShare | src/transaction/concurrency/lock_manager.cpp:64-107 | In every state of the lock table in which an item has only readers, any transactions can take S on it one after the other, and then all hold it together. |
| Locking.ReleaseEffect | src/transaction/concurrency/lock_manager.cpp:170-196 | Unlock fails if and only if nothing is held; otherwise exactly that holding goes and the invariant stays. |
| Locking.ExclusiveExcludes | src/transaction/concurrency/lock_manager.cpp:15-26 | While one transaction holds X on an item, no other holds anything on it. |
| Locking.UpgradeKeepsHeldIff | src/transaction/concurrency/lock_manager.cpp:91-92 | An upgrade keeps the strength of the held mode except in exactly two cases, S then IX and IX then S. |
| Locking.SharedLostOnUpgrade | src/transaction/concurrency/lock_manager.cpp:91-92 | A concrete table: a holder of S keeps another transaction from IX, asks for IX itself, and the other one is then granted IX beside it. |
| Locking.DoKeepsLocksOk | src/transaction/concurrency/lock_manager.cpp:64-196 | Every lock or unlock keeps: non-empty queues, all granted, one request per transaction, pairwise compatible, group mode right, and each lock set equal to the queue memberships. |
| Locking.LocksOkInEveryRun | src/transaction/concurrency/lock_manager.cpp:64-196 | That invariant holds after every run of lock and unlock calls. |
| Locking.LockManager.Lock | src/transaction/concurrency/lock_manager.cpp:64-107 | The object's table and the transaction's lock set change as Acquire says; a null transaction is granted and a shrinking one refused without change. |
| Locking.LockManager.Unlock | src/transaction/concurrency/lock_manager.cpp:170-196 | The object changes as Release says; a growing transaction starts to shrink. |
| Locking.LockManager.UnlockAll | src/transaction/transaction_manager.cpp:60-63 | After the release loop of commit or abort the transaction is in no queue and everybody else holds what they held. |
| Serializability.KeepsInv | src/transaction/transaction_manager.cpp:26-117 | Every separate call of every transaction (begin, lock, read, scan, log a change, apply or refuse it, heap insert, log it, log the commit, start of abort, one undo, log the abort, flush, unlock) keeps the two-phase-locking invariant. |
| Serializability.InvInEveryRun | src/transaction/transaction_manager.cpp:26-117 | The invariant holds in every state of every interleaving. |
| Serializability.SerialEquivalence | src/transaction/concurrency/lock_manager.cpp:64-100 | In every interleaving, whenever nobody is live the tables equal the serial replay of exactly the committed transactions in commit order, and every value a committed transaction read is what that replay shows it. |
| Serializability.AbortNeverStuck | src/transaction/transaction_manager.cpp:79-104 | In every reachable state the next restoring step of an aborting transaction is possible and finds what it needs, refused updates included. |
| LogInvariant.LoggedInEveryRun | src/execution/executor_update.h:55-68 | In every state of every interleaving of the separate log, flush and heap calls, the log has accurate before-images, conflicting writers separated by the earlier one's end, commits that rebuild the serial state, and describes the tables up to the change or insert in progress. |
| WriteAhead.WalInEveryRun | src/execution/executor_delete.h:43-55 | In every state of every interleaving each transaction's place in its program matches the log on disk: a flushed change has its record there, and so has everything it would roll back except an insert in progress. |
| WriteAhead.ChangedRid | src/execution/executor_insert.h:56-66 | A step that changes a rid finds the record on disk already, or is the heap half of an insert of a rid that was free at first. |
| CrashRecovery.DurableInEveryRun | src/execution/executor_update.h:55-68 | In every state of every interleaving: commits that have returned are on disk; what a transaction would roll back is on disk, except an insert in progress; and a rid without a record on disk holds its initial value, unless it is being inserted. |
| CrashRecovery.CrashedLog | src/recovery/log_recovery.cpp:65-110 | Whatever part of the log beyond the durable part survives a crash is well formed, its commits rebuild the serial state of exactly the transactions that survive in it, and every commit that had returned is among them. |
| CrashRecovery.ImageOffLog | src/execution/executor_insert.h:56-66 | In any disk image the run can have left, a rid that the surviving log does not mention shows its initial value if and only if the image does not hold an insert whose record is lost. |
| CrashRecovery.CrashRecoveryIff | src/recovery/log_recovery.cpp:115-190 | After a crash between any two calls of any interleaving, with any surviving part of the log and any image the run can have left, recovery gives the serial state of the surviving committed transactions if and only if no rid has an uncommitted write followed by a committed write of other bytes and the image holds no insert whose record is lost. |
| CrashRecovery.UnloggedInsertKept | src/execution/executor_insert.h:56-66 | A concrete run: a crash between an insert's heap change and its log record, with the page on disk, leaves the uncommitted record in the recovered table. |
| CrashRecovery.CrashRecoveryCorrect | src/recovery/log_recovery.cpp:115-190 | Recovery is exact whenever no rid written by an aborted transaction is later rewritten by a committed one and the image holds no lost insert. |
| CrashRecovery.CrashRecoveryFromBytes | src/recovery/log_recovery.cpp:65-190 | The same if-and-only-if from any surviving byte prefix of the log file, torn last record included, with the conditions read off what was parsed. |
| LogOverRuns.ClassifyRuns | src/recovery/log_recovery.cpp:95-105 | Over a log of several runs analyze takes an id as committed if it committed in any run, and as unfinished if the last run in which it occurs leaves it so. |
| LogOverRuns.RunsExactIff | src/recovery/log_recovery.cpp:115-190 | With any logs of earlier runs in front, recovery gives the committed state of the new run if and only if every rid is right: no id that is undone put other bytes back from a past run, nothing is overwritten in the new run, and rids that only past runs wrote were left at their last committed value. |
| LogOverRuns.FreshIdsExactIff | src/transaction/transaction_manager.h:70-70 | After a past in which every transaction committed, and with no undone id of the new run used before, the past does not matter: recovery is exact under the condition for one run. |
| LogOverRuns.ReusedIdUndoesCommitted | src/transaction/transaction_manager.h:70-70 | A concrete log of two runs: a crash while the first transaction of the second run is open undoes the committed first transaction of the first run. |
| LogOverRuns.CrashOverRuns | src/recovery/log_recovery.cpp:115-190 | After a crash between any two calls of any interleaving of a later run, recovery gives the serial state of its surviving committed transactions if and only if every rid is right. |
| LogOverRuns.CrashOverRunsFromBytes | src/recovery/log_recovery.cpp:65-190 | The same from the bytes of the log file, with a torn last record. |
| LogOverRuns.ParsePast | src/recovery/log_recovery.cpp:70-110 | Whole records at the front of the log file are parsed whatever bytes follow them. |
| LogOverRuns.TornByteHidesRun | src/recovery/log_recovery.cpp:79-93 | For any earlier logs and any short log of a run appended after one byte of a torn record: recovery parses no record of that run. |
| Recovery.CommittedIff | src/recovery/log_recovery.cpp:95-105 | Analysis classifies a transaction as committed if and only if the log has its commit record. |
| Recovery.ActiveIff | src/recovery/log_recovery.cpp:95-105 | The undo set is exactly the logged transactions without a commit record, aborted ones included. |
| Recovery.RedoAt | src/recovery/log_recovery.cpp:115-148 | After redo a rid holds the after-image of the last committed write to it, or what it held. |
| Recovery.UndoAt | src/recovery/log_recovery.cpp:153-186 | After undo a rid holds the before-image of the first write to it by an undone transaction, or what it held. |
| Recovery.RecoveredAt | src/recovery/log_recovery.cpp:115-190 | Redo then undo, rid by rid, in closed form. |
| Recovery.RecoveredIgnoresImage | src/recovery/log_recovery.cpp:115-190 | The recovered table does not depend on what the logged rids held on disk. |
| Recovery.RerunAfterCrash | src/recovery/log_recovery.cpp:115-190 | A crash after any number of redo or undo actions followed by a new recovery gives the same table. |
| Recovery.RecoveryExactIff | src/recovery/log_recovery.cpp:115-190 | From every disk image recovery equals the committed-only state if and only if no rid lost an uncommitted write to a later committed write of other bytes. |
| Recovery.RecoveryCorrect | src/recovery/log_recovery.cpp:115-190 | Separated writers and no committed rewrite after an abort are enough for exact recovery. |
| Recovery.CommittedUpdateLost | src/recovery/log_recovery.cpp:101-105 | A concrete log on which a committed update is thrown away because an aborted transaction is undone again. |
| RecoveryManagement.ReadRecord | src/recovery/log_recovery.cpp:71-93 | The record at the offset and its length, or none exactly where parsing stops. |
| RecoveryManagement.ScanLog | src/recovery/log_recovery.cpp:65-110 | The loop over the file returns the parse of the whole file and both transaction sets. |
| RecoveryManagement.Classify | src/recovery/log_recovery.cpp:95-105 | One record's bookkeeping keeps both sets equal to those of the log read so far. |
| RecoveryManagement.RedoRecord | src/recovery/log_recovery.cpp:121-146 | On the heap file with its links: update_record where the record exists, insert_record(rid, buf) where it does not, or delete_record; together one put of the after-image. |
| RecoveryManagement.UndoRecord | src/recovery/log_recovery.cpp:160-185 | On the heap file with its links: the branches are one put of the before-image. |
| RecoveryManagement.RecoveryManager.Analyze | src/recovery/log_recovery.cpp:65-110 | Fills the object's log and sets from the file's bytes. |
| RecoveryManagement.RecoveryManager.Redo | src/recovery/log_recovery.cpp:115-148 | Applies the committed transactions' after-images, in log order, to every table's file; a record of a missing table stops it with an error, and the records before it are redone. |
| RecoveryManagement.RecoveryManager.Undo | src/recovery/log_recovery.cpp:153-186 | Applies the undone transactions' before-images, newest first, to every table's file; a record of a missing table stops it with an error, and the records after it are undone. |
| RecoveryManagement.RecoveryManager.Recover | src/recovery/log_recovery.cpp:65-186 | Succeeds if and only if every table that redo or undo needs is there, and then leaves every file recovered, with the recovered table as its contents. |
| FileRecovery.RecoveredContents | src/recovery/log_recovery.cpp:115-186 | Running redo and undo on a heap file gives exactly the recovered table as contents, whatever the links of the free-page chain are: good, stale or cyclic. |
| FileRecovery.PutKeepsIff | src/recovery/log_recovery.cpp:125-129 | One recovery action keeps a good chain if and only if it does not fill, by a restoring insert, an existing page other than the chain's head. |
| FileRecovery.ChainSurvivesIff | src/recovery/log_recovery.cpp:115-186 | The chain is good before and after every action of recovery if and only if the crash left it good and each action meets that guard when it runs. |
| FileRecovery.StaleLinksStay | src/record/rm_file_handle.cpp:121-124 | From any links, stale ones included: when every action finds on disk what it leaves, recovery changes no link, and the chain is good afterwards if and only if it was good on disk. |
| ChainFailures.RecoveryBreaksChain | src/recovery/log_recovery.cpp:125-136 | For every number of slots per page, the file and the log of three filled pages that lost one record each: recovery ends with the same records on links that run in a cycle. |
| ChainFailures.StaleHeaderStays | src/record/rm_file_handle.cpp:121-124 | For every number of slots per page: a file whose page was filled after the header was last written stays as it is through recovery, and the next insert reports that there is no free slot. |
| LinkedHeap.InsertAtShows | src/record/rm_file_handle.cpp:52-81 | As long as the links spell a good list, the restoring insert on links does what it does on the list, page creation included. |
| LinkedHeap.DeleteShows | src/record/rm_file_handle.cpp:83-103 | The same for delete_record with release_page_handle. |
| LinkedHeap.OnlyList | src/record/rm_file_handle.cpp:138-169 | Links spell at most one list, so the chain is good if and only if that list is. |
| LogCodec.RoundTrip | src/recovery/log_manager.h:39-310 | Deserializing a serialized record of any of the six types gives back every field. |
| LogCodec.HeaderLayout | src/recovery/log_defs.h:22-34 | Type number, lsn, total length, transaction and previous lsn stand at their offsets in the bytes, with the type numbers of the log file. |
| LogCodec.DataLayout | src/recovery/log_manager.h:156-168 | Value lengths, values, page and slot number and the length-prefixed table name follow each other from byte 20 on. |
| LogCodec.WholeRecordsLongest | src/recovery/log_recovery.cpp:71-93 | The number of whole records in a byte prefix is the longest that fits. |
| LogCodec.TornLogParses | src/recovery/log_recovery.cpp:65-110 | From every byte prefix of every serialized log, parsing gives exactly the longest prefix of whole records, field for field. |
| LogBuffering.SerializeInto | src/recovery/log_manager.h:275-290 | The field-by-field copies at a running offset write exactly the serialized record and change no other byte of the buffer. |
| LogBuffering.LogManager.AddLogToBuffer | src/recovery/log_manager.cpp:20-39 | Disk plus buffer stays the concatenation of all records in LSN order with no record split; a record too long for the buffer is refused without change; the buffer is written out before if and only if the record does not fit behind it. |
| LogBuffering.LogManager.FlushLogToDisk | src/recovery/log_manager.cpp:41-50 | Afterwards the disk holds the serialization of every record ever added. |
| LogBuffering.LogManager.WriteLog | src/recovery/log_manager.cpp:44-49 | Moving the buffer to disk keeps the stream and empties the buffer. |
| BufferPool.GuardNeverDrops | src/replacer/lru_replacer.cpp:51-63 | The replacer's capacity guard never drops a frame (pigeonhole). |
| BufferPool.NoVictimIff | src/storage/buffer_pool_manager.cpp:18-31 | No victim is found if and only if every frame is pinned. |
| BufferPool.PinnedNeverEvicted | src/storage/buffer_pool_manager.cpp:54-78 | Bringing in a page leaves every pinned frame's page and bytes as they were. |
| BufferPool.FetchKeepsIff | src/storage/buffer_pool_manager.cpp:54-78 | Fetch keeps frames partitioned into free, evictable and pinned, with the page table a bijection onto the non-free ones, if and only if the page is resident, or on disk, or no frame can be taken; otherwise the read fails and the frame is left mapped, neither pinned nor evictable. |
| BufferPool.FailedReadLosesFrame | src/storage/buffer_pool_manager.cpp:69-76 | A concrete pool: after a failing read nothing is pinned and no frame can be taken, and the missing page is found as zeros. |
| BufferPool.NewKeepsIff | src/storage/buffer_pool_manager.cpp:118-133 | New page keeps that partition if and only if the allocated number is not resident, or resident in the frame that is taken, or no frame can be taken. |
| BufferPool.ComingBackUnmapsPinned | src/storage/buffer_pool_manager.cpp:118-133 | A concrete pool: the number of a dropped table's page comes back, the next eviction unmaps the new page while it is pinned, and releasing it is refused. |
| BufferPool.UnpinOk | src/storage/buffer_pool_manager.cpp:80-101 | Unpin keeps that partition. |
| BufferPool.FlushOk | src/storage/buffer_pool_manager.cpp:103-116 | Flush keeps that partition. |
| BufferPool.DeleteOk | src/storage/buffer_pool_manager.cpp:135-160 | Delete keeps that partition. |
| BufferPool.SteppedOk | src/storage/buffer_pool_manager.cpp:33-173 | Every step carries each page's last released bytes in its frame or on disk. |
| BufferPool.StoreOkInEveryRun | src/storage/buffer_pool_manager.cpp:33-173 | That, and the partition, hold in every state of every run from an empty pool over any disk, pages already on disk included; a frame number out of range would allow anything, and never occurs. |
| BufferPool.FetchGivesLastReleased | src/storage/buffer_pool_manager.cpp:33-173 | After every run, fetching a page either finds every frame pinned or returns the bytes last released dirty, or those on disk at the start if there were none. |
| ReleaseOrder.ListedByRelease | src/replacer/lru_replacer.cpp:22-63 | In every state of every run the evictable frames are listed by the step at which each was last released, earliest first. |
| ReleaseOrder.VictimIsLeastRecent | src/replacer/lru_replacer.cpp:22-34 | In every state of every run the frame taken next is a free one, or the one whose last release is the earliest of all resident frames without a pin. |
| ReleaseOrder.PinsCounted | src/storage/buffer_pool_manager.cpp:54-101 | In every state of every run the pin count of every page is the number of its pins still out, so a page with a pin out is resident. |
| ReleaseOrder.FetchResident | src/storage/buffer_pool_manager.cpp:55-62 | Fetching a resident page adds one pin and changes nothing else on any page. |
| ReleaseOrder.NewEffect | src/storage/buffer_pool_manager.cpp:118-133 | A new page is a page of zero bytes, clean, pinned once. |
| ReleaseOrder.UnpinEffect | src/storage/buffer_pool_manager.cpp:80-101 | Unpin fails if and only if the page has no pin; otherwise one pin goes, a dirty page stays dirty, and bytes and other pages stay. |
| ReleaseOrder.FlushEffect | src/storage/buffer_pool_manager.cpp:103-116 | Flush fails if and only if the page is not resident; otherwise its bytes are on disk and it is clean. |
| ReleaseOrder.DeleteEffect | src/storage/buffer_pool_manager.cpp:135-160 | Delete fails if and only if the page is pinned; otherwise the page is not resident, its frame is the last of the free ones, and every other page and the disk are as before. |
| BufferPoolObjects.LRUReplacer.Victim | src/replacer/lru_replacer.cpp:22-35 | List and hash stay in step; the oldest frame leaves. |
| BufferPoolObjects.LRUReplacer.Pin | src/replacer/lru_replacer.cpp:37-49 | The frame, if listed, leaves the list and the hash, and the frames before and after it keep their order. |
| BufferPoolObjects.LRUReplacer.Unpin | src/replacer/lru_replacer.cpp:51-63 | The frame is listed once, newest last, unless the guard stops it. |
| BufferPoolObjects.BufferPoolManager.FindVictimPage | src/storage/buffer_pool_manager.cpp:18-31 | Takes a free frame first, otherwise the replacer's victim. |
| BufferPoolObjects.BufferPoolManager.UpdatePage | src/storage/buffer_pool_manager.cpp:33-52 | Writes a dirty page back, moves the page-table entry and resets the frame. |
| BufferPoolObjects.BufferPoolManager.FetchPage | src/storage/buffer_pool_manager.cpp:54-78 | The object's whole state changes as the abstract fetch says, a failing read included; the invariant survives if and only if the read does not fail. |
| BufferPoolObjects.BufferPoolManager.NewPage | src/storage/buffer_pool_manager.cpp:118-133 | The object's whole state changes as the abstract new page says; the invariant survives under the condition of NewKeepsIff. |
| BufferPoolObjects.BufferPoolManager.UnpinPage | src/storage/buffer_pool_manager.cpp:80-101 | The object's whole state changes as the abstract unpin says. |
| BufferPoolObjects.BufferPoolManager.FlushPage | src/storage/buffer_pool_manager.cpp:103-116 | The object's whole state changes as the abstract flush says. |
| BufferPoolObjects.BufferPoolManager.DeletePage | src/storage/buffer_pool_manager.cpp:135-160 | The object's whole state changes as the abstract delete says. |
| BufferPoolObjects.BufferPoolManager.FlushAllPages | src/storage/buffer_pool_manager.cpp:162-173 | Every resident page of the file ends clean with its bytes on disk, and nothing else changes. |
| Heap.InsertOk | src/record/rm_file_handle.cpp:30-50 | insert_record(buf) never meets "no free slot", keeps the free-page chain exactly the pages with a free slot, and adds one record at a rid that held none. |
| Heap.InsertPlace | src/record/rm_file_handle.cpp:30-50 | The record goes to the lowest free slot of the page at the head of the chain, or to slot 0 of a new page at the end of the file if and only if every page is full. |
| Heap.DeleteOk | src/record/rm_file_handle.cpp:83-103 | delete_record fails if and only if the record is missing; otherwise it removes that record and keeps the invariant. |
| Heap.UpdateOk | src/record/rm_file_handle.cpp:105-119 | update_record fails if and only if the record is missing; otherwise it changes that record only. |
| Heap.InsertAtKeepsIff | src/record/rm_file_handle.cpp:52-81 | A restoring insert, on an existing page or on one it creates, keeps the chain invariant if and only if it does not fill an existing page other than the chain's head. |
| Heap.InsertAtContents | src/record/rm_file_handle.cpp:52-81 | Whatever happens to the chain, it puts its own record back and touches no other. |
| Heap.RestoringInsertBreaksChain | src/record/rm_file_handle.cpp:73-78 | For every number of slots per page, a concrete file on which a restoring insert leaves a full page on the chain, so that a later insert fails. |
| RecordFile.RmFileHandle.GetRecord | src/record/rm_file_handle.cpp:13-23 | The record of the abstract table, or none, whatever the links are. |
| RecordFile.RmFileHandle.CreateNewPage | src/record/rm_file_handle.cpp:138-153 | The new page is empty and becomes the head of the links, whatever they are. |
| RecordFile.RmFileHandle.InsertRecord | src/record/rm_file_handle.cpp:30-50 | On linked page headers, counts and bitmaps: exactly the abstract insert, with the invariant. |
| RecordFile.RmFileHandle.DeleteRecord | src/record/rm_file_handle.cpp:83-103 | On linked page headers, counts and bitmaps, whatever the links are: exactly the abstract delete; with a good chain it stays good. |
| RecordFile.RmFileHandle.UpdateRecord | src/record/rm_file_handle.cpp:105-119 | Exactly the abstract update, whatever the links are; with a good chain it stays good. |
| RecordFile.RmFileHandle.InsertAt | src/record/rm_file_handle.cpp:52-81 | Exactly the abstract restoring insert, page creation and errors included, on any links, broken ones too; on a good chain it is the list insert. |
| RecordFile.NextBit | src/record/bitmap.h:41-49 | The first later position with the bit, or the limit. |
| RecordScan.RmScan.Next | src/record/rm_scan.cpp:20-38 | Moves to the first live record after the current position, over any pattern of bitmaps, or to the end. |
| RecordScan.ScanAll | src/record/rm_scan.cpp:15-42 | A full scan terminates and visits every live rid exactly once in increasing (page, slot) order. |
| PageLayout.LayoutFits | src/record/rm_manager.h:35-49 | For every accepted record size there is at least one slot, the bitmap has a bit per slot, and all slots end inside the page. |
| PageLayout.SlotsExactly | src/record/rm_manager.h:46-48 | The number of slots is the greatest for which file header, records and their bits, rounded up by seven bits, fit a page. |
| PageLayout.SlotsNearlyMost | src/record/rm_manager.h:46-48 | It falls short of the greatest number that fits behind the page header by at most eight, and by at most one for records of nine bytes or more. |
| PageLayout.SlotsDisjoint | src/record/rm_file_handle.h:38-40 | Two different slots share no byte. |
| PageLayout.SlotInPage | src/record/rm_file_handle.h:38-40 | Every slot lies between the bitmap and the end of the page. |
| PageLayout.WriteSlot | src/record/rm_file_handle.h:38-40 | Writing a record changes no header byte, no bitmap byte and no other record. |
| PageLayout.WriteRecord | src/record/rm_file_handle.h:38-40 | On the slots of the page image exactly the written slot changes. |
| PageLayout.Set | src/record/bitmap.h:25-25 | On the bit sequence of the page image exactly the position changes, to 1. |
| PageLayout.Reset | src/record/bitmap.h:28-28 | On the bit sequence of the page image exactly the position changes, to 0. |
| PageLayout.BitPlace | src/record/bitmap.h:58-60 | Slot pos is the bit of byte pos / 8 that stands pos % 8 places below the highest. |
| PageLayout.NextBit | src/record/bitmap.h:41-49 | The search loop over packed bytes finds the first later position with the bit, or the limit. |
| HeapRollback.UndoAction | src/transaction/transaction_manager.cpp:87-102 | Undoing one insert, delete, update or refused update raises no error, finds a filled page at the chain's head, and restores the file exactly, up to a page that the action created. |
| Relations.ExecuteKeepsOk | src/execution/executor_insert.h:40-69 | Each executor, allowed or refused, keeps every unique index of the table in agreement with the heap file. |
| UniqueKeys.DecideMeans | src/system/sm_manager.cpp:475-532 | On contents and keys alone: an insert is refused if and only if a live record has an equal key on some index; an update of a live rid is refused if and only if another live record has; delete and update fail if and only if the rid is not live. |
| UniqueKeys.DuplicateMeans | src/system/sm_manager.cpp:475-493 | The unique check on one index finds a live record other than the record itself with equal values in every indexed column, if and only if there is one. |
| UniqueKeys.ExecuteMeans | src/execution/executor_update.h:55-68 | What each accepted row operation does to the contents; a refused update leaves them. |
| UniqueKeys.KeepingKeysAccepted | src/system/sm_manager.cpp:527-532 | An update that keeps every indexed value is never refused. |
| Relations.RestoreUndoes | src/transaction/transaction_manager.cpp:87-102 | Undoing one action restores the file and every index, entry for entry, with no duplicate-key error, whatever empty pages were added meanwhile. |
| Relations.StepKeepsDbOk | src/execution/executor_update.h:40-71 | A statement on one row of one table keeps the agreement on all tables. |
| IndexAgreement.RollByTable | src/transaction/transaction_manager.cpp:79-104 | Rolling back a write set over several tables is rolling back each table by its own records. |
| IndexAgreement.AbortRestores | src/transaction/transaction_manager.cpp:75-104 | Abort's loop meets no error, restores each table the transaction had locked (contents, index entries, chain plus only its own new pages) and touches no other table. |
| IndexAgreement.KeepsSysInv | src/transaction/transaction_manager.cpp:48-117 | Every lock, row operation, commit and abort of any transaction keeps the invariant behind this; none fails. |
| IndexAgreement.AgreementInEveryRun | src/transaction/transaction_manager.cpp:48-117 | In every interleaving and after every step, no abort or row operation has failed, each index is strictly sorted with exactly one entry per live record, and an abort at that point would be exact. |
| SystemManagement.EraseEntry | src/system/sm_manager.cpp:517-523 | The erase loop removes the first entry with this key and rid, if there is one. |
| SystemManagement.TableStore.CheckIndexInsert | src/system/sm_manager.cpp:475-493 | Refuses if and only if some index has the key under another rid. |
| SystemManagement.TableStore.InsertIndexEntries | src/system/sm_manager.cpp:495-506 | Inserts the record's entry into every index of the table. |
| SystemManagement.TableStore.DeleteIndexEntries | src/system/sm_manager.cpp:508-525 | Deletes the record's entry from every index of the table. |
| SystemManagement.TableStore.UpdateIndexEntries | src/system/sm_manager.cpp:527-532 | Check, delete, insert; a refused update changes no index. |
| SystemManagement.LogRow | src/execution/executor_insert.h:60-66 | The record is linked to the transaction's previous one, and when the flush returns every record ever added is on disk. |
| SystemManagement.TableStore.InsertRow | src/execution/executor_insert.h:53-67 | File, write set, log and indexes change exactly as the abstract insert says, with the log on disk; a duplicate changes nothing. It refuses if and only if a live record has an equal key on some index, and otherwise adds exactly this record; the log record is written when the heap has it. |
| SystemManagement.TableStore.DeleteRow | src/execution/executor_delete.h:41-56 | Log, write set, indexes and file change exactly as the abstract delete says, with the log on disk. It fails if and only if the rid is not live, and otherwise removes exactly that record, when its log record is on disk. |
| SystemManagement.TableStore.UpdateRow | src/execution/executor_update.h:55-68 | Log record and rollback record are kept even when the unique check refuses; otherwise file and indexes change as the abstract update says. It succeeds if and only if the rid is live and no other live record has an equal key on some index, and then replaces exactly that record, when its log record is on disk. |
| SystemManagement.TableStore.RemoveLogged | src/execution/executor_delete.h:43-55 | Asks that the delete is the newest record of a log that is all on disk, and only then changes indexes and heap. |
| SystemManagement.TableStore.ReplaceLogged | src/execution/executor_update.h:55-68 | Asks that the update is the newest record of a log that is all on disk, and only then changes indexes and heap. |
| SystemManagement.TableStore.RestoreRow | src/transaction/transaction_manager.cpp:87-102 | One iteration of abort's loop on the file handle and the index vectors is the abstract restore, and keeps the heap-file invariant. |
| TransactionManagement.TransactionManager.Begin | src/transaction/transaction_manager.cpp:26-41 | A given transaction is used, otherwise a new one gets the next id; it gets the next timestamp and starts to grow, and its begin record is the newest in the log. |
| TransactionManagement.TransactionManager.Commit | src/transaction/transaction_manager.cpp:48-68 | When it returns, the whole log including the commit record is on disk, the transaction is in no lock queue and remembers no write, and nobody else's locks changed. |
| TransactionManagement.TransactionManager.ReleaseLogged | src/transaction/transaction_manager.cpp:48-70 | Asks that the transaction's end record is the newest record of a log that is all on disk, and only then releases the locks. |
| TransactionManagement.TransactionManager.RollBack | src/transaction/transaction_manager.cpp:79-104 | Popping the write set newest first ends in the state the abstract rollback gives, with an empty write set. |
| TransactionManagement.TransactionManager.Abort | src/transaction/transaction_manager.cpp:75-117 | When it returns, the tables are what the abstract rollback gives, the whole log including the abort record is on disk, and the transaction is in no lock queue; nobody else's locks changed. |
| Refinement.BeginRefines | src/transaction/transaction_manager.cpp:26-41 | What begin of a new transaction shows is the engine's begin step: empty write set and lock set, the begin record, its lsn. |
| Refinement.ReadRefines | src/transaction/concurrency/lock_manager.cpp:64-107 | A holder of S or X on the table can read any rid in the engine, and sees what get_record returns. |
| Refinement.ScanRefines | src/transaction/concurrency/lock_manager.cpp:64-107 | A holder of S or X on the table can scan it in the engine, and sees its contents. |
| Refinement.InsertRefines | src/execution/executor_insert.h:56-66 | What TableStore.InsertRow does to contents, write set, last lsn, log and locks is the engine's heap insert, log and flush steps. |
| Refinement.ChangeRefines | src/execution/executor_update.h:55-68 | What TableStore.DeleteRow and UpdateRow do is the engine's log, flush and apply steps. |
| Refinement.RefusedRefines | src/execution/executor_update.h:55-67 | What a refused UpdateRow does is the engine's log, flush and refuse steps. |
| Refinement.RestoreRefines | src/transaction/transaction_manager.cpp:87-102 | One iteration of the rollback loop is one undo step of the engine. |
| Refinement.CommitRefines | src/transaction/transaction_manager.cpp:48-59 | Commit before its release loop is the engine's commit record and flush. |
| Refinement.AbortRefines | src/transaction/transaction_manager.cpp:105-112 | Abort after its loop and before its release loop is the engine's abort record and flush. |
| Refinement.LockRefines | src/transaction/concurrency/lock_manager.cpp:64-107 | A lock call is the engine's lock step, on the table and the lock set; a refusal turns the transaction to abort. |
| Refinement.UnlockRefines | src/transaction/concurrency/lock_manager.cpp:170-196 | Releasing one lock of an ended transaction is the engine's unlock step. |
| Compare.CompareFlip | src/execution/execution_defs.h:22-39 | Swapping two runs of bytes in compare_raw_value negates the result, for all five types. |
| Compare.CompareTrans | src/execution/execution_defs.h:22-39 | On columns of one length the comparison is a total preorder, strncmp's stop at NUL included. |
| ComparisonMeaning.IntegerOrder | src/execution/execution_defs.h:23-36 | INT, BIGINT and DATETIME bytes are compared as the integers they encode: below, equal and above exactly when those are. |
| ComparisonMeaning.EveryInteger | src/execution/execution_defs.h:23-36 | Every column value of the right width encodes an integer, so that order is the order of all values. |
| ComparisonMeaning.FloatOrder | src/execution/execution_defs.h:28-32 | FLOAT bytes other than NaN are compared as the numbers of their sign, exponent and mantissa, subnormals, zeros and infinities included. |
| ComparisonMeaning.StringOrder | src/execution/execution_defs.h:38-38 | CHAR values of one length are compared by the first byte that differs before a NUL. |
| ComparisonMeaning.IntegerWithValue | src/execution/execution_defs.h:63-81 | A condition on an integer column and a value holds exactly when the operator's relation holds of the two integers, for all six operators. |
| ComparisonMeaning.IntegerWithColumn | src/execution/execution_defs.h:63-81 | The same for two integer columns of one type. |
| ComparisonMeaning.FloatWithValue | src/execution/execution_defs.h:63-81 | The same for a FLOAT column and a value, neither of them NaN. |
| ComparisonMeaning.StringWithValue | src/execution/execution_defs.h:63-81 | The same for a CHAR column and a value, by the first difference before a NUL. |
| Compare.FindCol | src/execution/execution_defs.h:53-61 | The first column of that name; none exactly when no column has it. |
| Compare.FindFirst | src/execution/execution_defs.h:53-61 | Of several columns of one name the first is found. |
| Compare.KeyTrans | src/system/sm_manager.cpp:561-576 | Composite keys are ordered transitively, strictly if either step is strict. |
| Compare.KeyPrefix | src/system/sm_manager.cpp:561-576 | Comparing fewer leading columns can only forget differences. |
| Index.LowerBoundSplits | src/system/sm_manager.cpp:443-446 | In a sorted index the lower bound splits the entries by the prefix order. |
| Index.UpperBoundSplits | src/system/sm_manager.cpp:448-451 | In a sorted index the upper bound splits the entries by the prefix order. |
| Index.DuplicateIff | src/system/sm_manager.cpp:484-491 | One probe at the lower bound finds a duplicate if and only if any entry under another rid has an equal key. |
| Index.InsertAgrees | src/system/sm_manager.cpp:495-506 | Inserting a key that passed the check keeps strict order and one entry per record. |
| Index.DeleteAgrees | src/system/sm_manager.cpp:508-525 | Deleting the entry of a live record keeps the agreement with the table without it. |
| Index.UpdateAgrees | src/system/sm_manager.cpp:527-532 | Delete and insert after the check with the record's own rid keep the agreement. |
| Index.KeysUnique | src/system/sm_manager.cpp:475-493 | Two live records of a table never have equal keys. |
| Index.AgreementDetermines | src/system/sm_manager.cpp:475-532 | The table's contents determine the entries vector, so restoring one restores the other. |
| IndexBuild.CompareIndexKey | src/system/sm_manager.cpp:561-576 | Walking the concatenated bytes with a running offset is the column-by-column comparison. |
| IndexBuild.BuildExact | src/system/sm_manager.cpp:272-276 | Sorted entries pass the neighbour check if and only if no two records have equal keys, which is if and only if the index agrees with the table. |
| IndexCreation.CollectEntries | src/system/sm_manager.cpp:266-270 | The scan loop gives one entry per live record. |
| IndexCreation.SortEntries | src/system/sm_manager.cpp:582-593 | The comparator is a strict total order on entries of different records, and sorting by it keeps the entries. |
| IndexCreation.RebuildIndex | src/system/sm_manager.cpp:595-606 | The rebuilt index holds the table's entries in order, and agrees with the table if and only if no two records have equal keys. |
| IndexCreation.CreateIndex | src/system/sm_manager.cpp:263-279 | The duplicate error is raised if and only if two records have equal keys; otherwise the new index agrees with the table. |
| IndexBuild.ChooseIndex | src/optimizer/planner.cpp:25-70 | The first index with the greatest number of usable leading columns; none if and only if no index can use a condition. |
| IndexBuild.ScoreIndex | src/optimizer/planner.cpp:31-55 | Counts the equality prefix, plus one for a range on the next column. |
| IndexBuild.ScoreIff | src/optimizer/planner.cpp:31-55 | The score is the greatest n for which the conditions fix all of the first n columns but the last, and fix or bound the last. |
| IndexBuild.ScorePositive | src/optimizer/planner.cpp:65-67 | An index is chosen exactly when the search in it starts from at least one bound. |
| IndexRange.BetterIsTighter | src/system/sm_manager.cpp:372-381 | The better of two bounds lets through no key that the other keeps out, on either side. |
| IndexRange.BestIsAll | src/system/sm_manager.cpp:399-424 | Keeping only the best bound loses none of the range conditions, multiple and contradictory ones included. |
| IndexRange.LimitsAreConditions | src/system/sm_manager.cpp:428-437 | The two final bounds together mean exactly: equal on the equality prefix and every range condition on the next column. |
| IndexScanning.FindEq | src/system/sm_manager.cpp:385-392 | The value of the first equality condition on the column. |
| IndexScanning.TightenBounds | src/system/sm_manager.cpp:399-424 | The loop keeps the best bound on each side. |
| IndexScanning.FindBounds | src/system/sm_manager.cpp:383-437 | The loops over the columns end with exactly the two limits. |
| IndexScanning.RangeExact | src/system/sm_manager.cpp:439-466 | The two positions bracket exactly the entries whose keys meet those conditions. |
| IndexScanning.ScanIndex | src/system/sm_manager.cpp:358-473 | Returns the rids of exactly those entries, none when the bounds contradict each other. |
| IndexScanning.AnswersSelected | src/system/sm_manager.cpp:358-437 | Every record that satisfies all conditions has a key in the range. |
| IndexMeaning.SelectedIff | src/system/sm_manager.cpp:383-437 | A key is in the range if and only if it satisfies every condition that the search uses: the first equality on each leading fixed column, and every limit on the next. |
| IndexMeaning.SelectedRecord | src/system/sm_manager.cpp:358-473 | The same on the fields of the record that the entry stands for. |
| IndexScanning.IndexScanExecutor.BeginTuple | src/execution/executor_index_scan.h:69-80 | What remains to be delivered is every matching live rid, once each. |
| IndexScanning.IndexScanExecutor.NextTuple | src/execution/executor_index_scan.h:82-95 | Exactly the current rid is consumed. |
| IndexScanning.RunIndexScan | src/execution/executor_index_scan.h:69-105 | A full index scan delivers exactly the rids whose records satisfy the conditions, once each. |
| SeqScanning.SeqScanExecutor.BeginTuple | src/execution/executor_seq_scan.h:49-59 | Stands on the first matching record of the file, or at the end. |
| SeqScanning.SeqScanExecutor.NextTuple | src/execution/executor_seq_scan.h:61-74 | Moves to the next matching record in (page, slot) order. |
| SeqScanning.RunSeqScan | src/execution/executor_seq_scan.h:49-84 | A full sequential scan delivers the same set of rids as RunIndexScan, in (page, slot) order. |
| Planner.PopConds | src/optimizer/planner.cpp:79-94 | The erasing loop splits the conditions into the taken and the kept ones, in order. |
| Planner.PoppedCount | src/optimizer/planner.cpp:79-94 | Popping loses and repeats no condition. |
| Planner.PushCondsEffect | src/optimizer/planner.cpp:96-137 | A condition is attached if and only if both its tables occur, at a node with one of them on each side; otherwise the tree is unchanged and the code says which side occurs. |
| Planner.PushCondsCount | src/optimizer/planner.cpp:96-137 | It is attached exactly once, up to operand swap. |
| Planner.PopScan | src/optimizer/planner.cpp:139-152 | Finds and marks the table's scan; none if and only if there is none. |
| Planner.JoinOne | src/optimizer/planner.cpp:231-268 | Each later condition either joins one or two new scans, swapped if needed, or is pushed down; the tree invariant and the condition count stay right. |
| Planner.MakeOneRel | src/optimizer/planner.cpp:177-284 | Every table occurs once, every join condition has one column on each side, and every WHERE condition occurs exactly as often as written, up to operand swaps; all are at nodes covering their columns if and only if no same-table comparison is on a table other than the first. |
| Planner.MisplacedComparison | src/optimizer/planner.cpp:86-88 | A concrete query whose same-table comparison on the second table lands in the first table's scan. |
| TupleLayout.FieldInTuple | src/execution/executor_nestedloop_join.h:34-42 | Looking a column up in the joined tuple, with shifted offsets, gives the bytes of its own table's record. |
| CharLengths.ComparisonExactIff | src/execution/execution_defs.h:63-81 | For every tuple length and any columns: eval_condition orders the values of two CHAR columns on every tuple if and only if the lengths are equal, or the left is shorter and the operator is > or <= (or an empty column starts where the longer left one does). |
| CharLengths.SwapKeepsIff | src/optimizer/planner.cpp:253-260 | Swapping the operands of a comparison of two CHAR columns keeps its value on every tuple if and only if the lengths are equal (or an empty column starts where the other does). |
| PlanMeaning.FlipHolds | src/optimizer/planner.cpp:125-132 | Swapping the operands with the swapped operator keeps what a comparison means on the values, CHAR columns of any lengths included. |
| PlanMeaning.NodeMeans | src/execution/execution_defs.h:63-81 | At a node that has its columns, a condition that is proper by its lengths has a value, and it is what the condition means on the tables' records. |
| PlanMeaning.SurvivesMeans | src/optimizer/planner.cpp:96-137 | In a covered plan whose comparisons are proper by their lengths, passing every node is satisfying every attached condition. |
| PlanMeaning.PlanPreservesMeaning | src/optimizer/planner.cpp:79-284 | In such a plan a combination of one record per table passes every node if and only if it satisfies every WHERE condition. |
| PlanRows.RowsExact | src/portal.h:162-186 | The plan delivers, once each, exactly the combinations of live records that pass every node. |
| PlanRows.PlanAnswersQuery | src/optimizer/planner.cpp:177-284 | A plan with the planner's guarantees, whose comparisons are proper by their lengths, delivers, once each, exactly the rows of the cross product that satisfy every WHERE condition. |
| PlanRows.MisplacedDeliversNothing | src/optimizer/planner.cpp:86-88 | A plan with a condition at a scan that lacks its column delivers no row. |
| PlanRows.PlanRightIff | src/optimizer/planner.cpp:79-284 | A plan with a misplaced condition delivers exactly the answers if and only if there is none; a plan whose comparisons are proper by their lengths does so if and only if no condition is misplaced or there is no answer. |
| EquiJoins.EquiJoinRightIff | src/optimizer/planner.cpp:79-284 | For every WHERE clause of column equalities over any number of tables, CHAR columns of any lengths included: the plan delivers exactly the answers on every database, and no comparison reads past its tuple, if and only if no condition is misplaced and compared columns have one length. |
| EquiJoins.WhereOrderMatters | src/optimizer/planner.cpp:253-260 | A concrete schema and row: the plans of the same two conditions in two orders both have the planner's guarantees, and one delivers the row, the other does not. |
| NestedLoopJoins.JoinEmitsPairs | src/execution/executor_nestedloop_join.h:44-93 | Whatever the block boundaries, each tuple is emitted exactly as often as there are left-right pairs that pass the conditions and give it. |
| NestedLoopJoins.NestedLoopJoin.LoadLeftBlock | src/execution/executor_nestedloop_join.h:44-61 | Takes the next left tuples up to the buffer limit, at least one unless the left side is at its end. |
| NestedLoopJoins.NestedLoopJoin.AdvanceToMatch | src/execution/executor_nestedloop_join.h:63-93 | From any resumable position it terminates and makes the next tuple of the rest current, or ends exactly when there is none. |
| NestedLoopJoins.NestedLoopJoin.BeginTuple | src/execution/executor_nestedloop_join.h:114-121 | From any earlier state exactly the whole join is pending. |
| NestedLoopJoins.NestedLoopJoin.NextTuple | src/execution/executor_nestedloop_join.h:123-128 | Exactly the current tuple is consumed. |
| NestedLoopJoins.NestedLoopJoin.Next | src/execution/executor_nestedloop_join.h:130-135 | The first pending tuple, or none at the end. |
| NestedLoopJoins.RunJoin | src/execution/executor_nestedloop_join.h:44-128 | A full run terminates and emits the join; run again it emits the same sequence. |
| PlanExecution.ScanDelivers | src/portal.h:168-175 | The bytes at the rids of a scan executor, in its own order, are the plan's rows with their multiplicities. |
| PlanExecution.ExecutorsDeliverRows | src/portal.h:162-186 | The executor tree, scans by their executors' rids and joins by the block nested-loop join, delivers exactly the plan's rows with their multiplicities. |
| PlanExecution.RunScan | src/portal.h:168-175 | Runs the sequential or the index scan and fetches its records: what it returns is what a scan leaf delivers. |
| PlanExecution.RunPlan | src/portal.h:162-186 | Running the whole executor tree over the files, with or without indexes, returns exactly the plan's rows with their multiplicities. |
| DateTime.ParseFixedInt | src/common/common.h:37-47 | The value of the digits, or an error exactly on a non-digit. |
| DateTime.ParseDatetimeLiteral | src/common/common.h:49-74 | Accepts exactly the texts with the five separators in place, digits elsewhere, a year from 1000 to 9999, a day of the calendar by month lengths and leap years spelled out, and a time of day; the value is below 10^14, so it fits 64 bits. |
| DateTime.MonthLengths | src/common/common.h:28-34 | January, March, May, July, August, October and December have 31 days, April, June, September and November 30, February 29 in years divisible by 4 and not by 100, or by 400, and 28 otherwise. |
| Calendar.YearLength | src/common/common.h:24-34 | The months of a year add up to 365 days, or 366 exactly where the Gregorian count of leap years goes up. |
| Calendar.Cycle | src/common/common.h:24-34 | Any 400 years have 146097 days. |
| Calendar.ValueDigits | src/common/common.h:68-73 | The value of an accepted text has the fourteen digits of the text, in their order. |
| Calendar.SignAfterFill | src/common/common.h:88-103 | A negative field shows fill zeros, then its sign, then its digits. |
| DateTime.FormatDatetimeValue | src/common/common.h:76-104 | For every integer, negative ones included: the fields split off from the right by truncating division, padded and punctuated. |
| DateTime.DecodeEncode | src/common/common.h:68-87 | Splitting an encoded date gives its fields back. |
| DateTime.TextRoundTrip | src/common/common.h:49-104 | Formatting the value of every accepted text gives that text. |
| DateTime.FormatParsesIff | src/common/common.h:49-104 | For every integer: its text is accepted if and only if it encodes a real date, and then it parses back to it. |
| DateTime.ValueRoundTrip | src/common/common.h:49-104 | Parsing the text of every date gives its value. |
| DateTime.OrderPreserved | src/common/common.h:68-73 | Integer order of encodings is calendar order, and equal encodings are equal dates. |

## Left out

- Planner.MakeOneRel: models plan nodes as values, because shared pointers to them are never compared; the update in place of a join node's condition vector becomes a new tree. It asks for at least one table, distinct non-empty table names and columns resolved to those tables, which the analyzer establishes.
- PlanMeaning.PlanPreservesMeaning: asks that the plan compares CHAR columns only with lengths and operators with which eval_condition orders their values, because it is false otherwise; CharLengths.ComparisonExactIff and EquiJoins.EquiJoinRightIff say how far.
- PlanRows.PlanAnswersQuery: asks the same.
- PlanMeaning.SurvivesMeans: asks the same.
- CharLengths.ComparisonExactIff: a strncmp that would run past the end of the tuple is undefined in the source; here it has no value, and such a condition does not pass.
- EquiJoins.WhereOrderMatters: the two plans are written out as make_one_rel builds them.
- NestedLoopJoins.RunJoin: a column missing from the joined tuple counts as a failed condition; the source raises an error there, which covered plans never meet.
- IndexScanning.RunIndexScan: the operand swap in the executor's constructor is not modelled, because pop_conds only hands it conditions whose left column is on its table.
- Index.UpdateAgrees: keys are lists of fields; IndexBuild.CompareIndexKey ties the comparison to the concatenated bytes.
- IndexCreation.SortEntries: std::sort is a library call; any sort by the comparator gives this result, and the one written out is an insertion sort.
- Compare.CompareTrans: floats are ordered as IEEE single-precision numbers without NaN, which no SQL literal produces.
- Serializability.SerialEquivalence: each latched call is one atomic step, and locks are table S and X as the executors request them.
- CrashRecovery.CrashRecoveryFromBytes: the log of one run with unique transaction ids; LogOverRuns.CrashOverRunsFromBytes has the logs of earlier runs in front.
- LogOverRuns.CrashOverRunsFromBytes: the logs of the earlier runs end in whole records; LogOverRuns.TornByteHidesRun is a case where they do not, and what a parse makes of the bytes after other torn records is not worked out.
- RecoveryManagement.RecoveryManager.Recover: the index rebuild at its end is IndexCreation.RebuildIndex, and the final flush is left out. Files are values with links; RecordFile.RmFileHandle shows that its methods change them so. The 32-bit offset of analyze is not modelled as overflowing, and a record whose lengths point outside its own bytes stops the parse where the source would read past them.
- FileRecovery.ChainSurvivesIff: rids outside the file's slots, which the engine never logs, are excluded; insert_record refuses them with an error.
- LogBuffering.LogManager.AddLogToBuffer: LSNs are assumed to stay within 32 bits.
- RecordFile.RmFileHandle.InsertRecord: asks for a good chain, because a broken one can send it to a full page; works on page images, with pins and the buffer pool below it modelled separately.
- BufferPool.FetchGivesLastReleased: runs take fetches that do not fail and new pages that are not resident; FetchKeepsIff and NewKeepsIff say what the others do.
- SystemManagement.TableStore.InsertRow: asks that lengths and numbers fit the log's fields, which record sizes of at most 512 bytes and 32-bit page numbers ensure.
- TransactionManagement.TransactionManager.Begin: always with a log manager; the null-argument branches of commit and abort are left out.
- Statement loops over many rids and the building of record bytes from SQL values: each row operation is modelled on its own.
- The B+ tree under src/index: its operations are unfilled stubs.
- Parser, analyzer, sockets, output formatting, DDL and metadata files: they would only add easy members.
- Sort, limit, projection and aggregate executors: library sort and simple folds.
- Real threads and mutexes, system calls of the disk manager: the disk is a map from page id to bytes, the log file a byte sequence.
