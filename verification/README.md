# A verified model of the SamehadaDB storage engine

SamehadaDB is a relational database written in Go. This project models its storage engine in Dafny and proves that the
parts do what the rest of the system relies on. Code that works on bytes, pointers or fields in place is modelled as
methods of classes over arrays, node objects and maps; each method is proved against a specification on values, and the
properties the system is for are proved about those specifications.

| files | part of the system |
|---|---|
| `Bytes`, `Collections`, `Slots`, `TablePages` | bytes and little-endian words; options, sums and sets; the slotted 4096-byte page with its slot directory, memmoves and offset shifts |
| `PageStores`, `Heaps`, `TableHeaps` | a table as a chain of pages: insertion, in-place and moving updates, deletion, write sets |
| `Scans`, `TableHeapIterators` | sequential scans under row locks |
| `LogRecords`, `LogManagers` | the log codec and the double-buffered log |
| `Recovery`, `CrashSafety`, `ReusedRows`, `LogRecoveries`, `RecoveryLimits`, `LogCuts` | redo and undo on values, the crash theorem, the recovery object on the bytes of log and pages, and where recovery fails |
| `Locks`, `LockManagers`, `Serializability`, `Engines`, `TransactionManagers` | the lock tables, strict two-phase locking, whole runs of the engine, commit and rollback |
| `CircularLists`, `ClockReplacers`, `Pools`, `PoolRuns`, `BufferPoolManagers` | the pointer ring with its clock hand, and the buffer pool as a cache |
| `Probes`, `HashBlocks`, `ProbeTables`, `Indexes` | linear probing as a multimap, bitmaps, the circular iterator, the index over RIDs |
| `Values`, `Tuples`, `HashJoins` | the tuple codec and the hash join |

Check everything with `dafny verify dfyconfig.toml`.

## What the code does and does not guarantee

Some properties one would expect do not hold of the code. They are stated exactly instead:

- Rollback is an inverse if and only if every update it takes back finds room on its page (`Heaps.AbortExact`, `Heaps.ShrunkRowLost`).
- Crash recovery can panic: exactly where undo takes back an INSERT whose row is gone (`CrashSafety.RecoveryPanicsExact`). One aborted
  insertion of a long row is enough (`RecoveryLimits.AbortedInsertPanics`).
- Where it gets through, it leaves the committed row if and only if no undo step goes wrong at it (`CrashSafety.RecoveryRestoresCommitted`,
  `Engines.EveryCrashRecovers`, `LogRecoveries.LogRecovery.Recover`). A step goes wrong when the old row of an UPDATE has no room
  (`RecoveryLimits.ShortenedRowStays`) or when the row of an APPLYDELETE is put into another slot (`RecoveryLimits.DeletedRowMoves`).
- That holds at RIDs no other transaction wrote after one that aborted. An ABORT record does not take its transaction out of
  `active_txn`, so at the others undo takes the aborted transaction back again, and the last undo step at the row decides
  (`ReusedRows.LastStepDecides`). If it takes back an INSERT or UPDATE older than the last committed record, the aborted before-image replaces
  the committed row, unless the step cannot be taken or the two are the same (`ReusedRows.AbortedImageWins`,
  `RecoveryLimits.AbortedTransactionUndoneTwice`); if it takes back a newer one that found the committed row, that row comes back exactly if the
  step can be taken (`ReusedRows.CommittedImageBack`). A row that losers only marked keeps its committed value unless another row is put into its
  slot (`ReusedRows.MarkedRowsRestored`).
- The log scan fails exactly when a read window cuts a record behind its header (`LogRecoveries.LogRecovery.Redo`, `LogCuts.ScanFails`).
- A flush before any append makes the persistent LSN claim record 0 (`LogManagers.LogManager.Flush`).
- Lock upgrades do not look for other sharers (`Locks.UpgradeNeedsSoleSharer`, `Serializability.UpgradeBreaksSerializability`). Crash recovery
  survives that: writers still exclude each other (`Locks.WriterAdded`, `Engines.RunKeeps`).
- A scan silently ends at the first row that is marked deleted or locked by another transaction (`Scans.ScanComplete`).
- The clock has no second chance: the frame under the hand is always the victim (`ClockReplacers.ClockReplacer.Victim`).
- `FlushPage` takes a pin away and never tells the replacer (`BufferPoolManagers.BufferPoolManager.FlushPage`); a failed read loses a frame.
- `FlushPage` does not flush the log, so write-ahead holds if and only if the page's last record is on disk already. A checkpoint calls it for
  all pages before it flushes the log (concurrency/checkpoint_manager.go:30-31).
- The hash index refuses a value found anywhere on the probe run, removed ones included (`Probes.InsertAddsOne`, `Probes.TombstoneRefuses`),
  and a full table drops entries without an error.
- Varchars are limited by int16 arithmetic on their length (`Values.RoundTrip`, `Values.BytesRoundTrip`).
- Search tuples need a table without Boolean columns (`Tuples.SearchTupleWorks`), and the join misses 0 against -0 (`HashJoins.FloatMissesAreZeros`).

## How to read the specifications

- A page is a sequence of slots, each `Empty`, `Live(bytes)` or `Marked(bytes)`. `TablePage.View()` is that sequence for the page's bytes, and
  a page operation's contract equates the new view with a function in `Slots` of the old one.
- A log is a sequence of records; record n carries LSN n. `Hist` is the database after the logged operations, `RedoAll` what redo makes of a disk
  image, `UndoAll` what undo makes of that, and `Replay` the value of one row after some of its records.
  `UndoRun` is undo with the assertions of its page calls: `Panicked`, or `Finished` with the pages. `Spoiled` looks at the last undo step that
  decides a row; `RightRow` is equality, except that a marked row that was dropped and reinserted is no longer marked.
- An engine run has the pages and the log in memory and the part of both that is on disk; a crash keeps the latter.
- `AbortAll` and `CommitAll` are rollback and commit on a heap; `Touch` notes a row before and after a write and exists for the proof only, and
  `Earliest` reads off it the row that rollback should put back.
- `FloatOf` is the number a float's bits stand for.
- A buffer pool is a value of type `Pool`; `Run` pairs it with what its clients know: the page map it stands for, how many of them have each page,
  which pages they let go of as dirty, and the next page id.
- A probe table is a sequence of cells; `Stored` counts a pair in it, and that count is the abstract multimap.
- Ghost parameters named `chain` give the page ids of a table's chain.

## Model

| member | source | states |
|---|---|---|
| `TablePages.TablePage.UpdateTuple` | storage/access/table_page.go:127-217 | after the memmove and the offset shifts only the target slot differs: every other slot, marked ones included, reads the same bytes; refusals, the no-room case and the saved old row are exact, and page id, next link and LSN stay |
| `TablePages.TablePage.ApplyDelete` | storage/access/table_page.go:265-312 | the row's bytes are taken out of the page, its slot becomes empty, every other slot reads the same bytes, and the removed bytes are returned |
| `TablePages.TablePage.InsertTuple` | storage/access/table_page.go:65-122 | an empty tuple and a full page are refused without a change; otherwise the lowest free slot, or a new one, holds the tuple and no other slot changes |
| `TablePages.TablePage.MarkDelete` | storage/access/table_page.go:221-262 | only a live row is marked; its bytes and all other slots stay |
| `TablePages.TablePage.RollbackDelete` | storage/access/table_page.go:315-334 | a marked row is live again with the same bytes; anything else stays as it is |
| `TablePages.TablePage.Init` | storage/access/table_page.go:337-350 | an empty, well-formed page with the given id and previous page, no next page and the LSN the bytes had |
| `TablePages.TablePage.GetTuple` | storage/access/table_page.go:426-457 | returns the bytes of exactly the live slots; slots past the directory, empty and marked ones give nothing |
| `TablePages.TablePage.NextTupleSlot` | storage/access/table_page.go:461-493 | finds the first slot from a start that is not empty, marked slots included |
| `TablePages.TablePage.FindFreeSlot` | storage/access/table_page.go:74-81 | stops at the lowest slot of size 0, or behind the directory |
| `TablePages.TablePage.ShiftOffsets` | storage/access/table_page.go:208-214 | the offset loop moves exactly the non-empty slots below the bound, by the size difference, in uint32 arithmetic |
| `TablePages.TablePage.SetNextPageId` | storage/access/table_page.go:361-363 | rewriting the next link changes no row and no other header field |
| `TablePages.RowsTile` | storage/access/table_page.go:65-122 | on every well-formed page each byte from the free pointer to the end belongs to exactly one non-empty slot, and none below it does |
| `TablePages.FreeSpaceExact` | storage/access/table_page.go:418-420 | the uint32 free-space subtraction never wraps and is the page size less header, directory and row bytes |
| `TablePages.Resized` | storage/access/table_page.go:201-217 | any memmove-and-shift that meets its byte-level description keeps the page well-formed and changes one slot |
| `TablePages.SlideAndShift` | storage/access/table_page.go:294-312 | the statements of the resize, one after the other, meet that description |
| `Slots.OperationsFit` | storage/access/table_page.go:65-334 | every page operation keeps directory and rows within 4096 bytes and rows non-empty |
| `Slots.RefusalsExact` | storage/access/table_page.go:65-166 | a tuple is refused for space if and only if the page would not fit with it in a new slot, and a resize if and only if the page would not fit with the new row; a refusal changes nothing |
| `Slots.RowsAreShort` | storage/access/table_page.go:65-78 | no row on any page is longer than 4064 bytes |
| `LogRecords.DecodeEncode` | recovery/log_recovery/log_recovery.go:42-94 | deserializing the bytes of an appended record gives the record back, for every record type |
| `LogRecords.DecodeTorn` | recovery/log_recovery/log_recovery.go:42-65 | a proper prefix of a record is never read as a record: it is too short to look at or cut after the header |
| `LogRecords.SampleEnds` | recovery/log_record.go:156-185 | the bytes of a COMMIT and an ABORT record, field by field in little-endian order |
| `LogRecords.SampleUpdate` | recovery/log_manager.go:163-173 | the bytes of an UPDATE record: RID, old tuple, new tuple, each tuple behind its length |
| `LogRecords.EncodeAllAt` | recovery/log_record.go:156-185 | the log stream splits at record boundaries: from record n on it starts with record n |
| `LogManagers.LogManager.AppendLogRecord` | recovery/log_manager.go:122-182 | log file plus pending bytes stay the concatenation of all appended records in LSN order across buffer swaps, the record gets the next LSN, and the buffer is flushed exactly if the record does not fit behind what is pending |
| `LogManagers.LogManager.Flush` | recovery/log_manager.go:58-86 | everything pending reaches the file; the persistent LSN is that of a record on disk if and only if something was appended |
| `LogManagers.LogManager.StartRecord` | recovery/log_manager.go:125-141 | after at most two flushes the header stands behind the pending bytes with room for the whole record |
| `LogManagers.FlushConserves` | recovery/log_manager.go:58-86 | handing the pending bytes to the file loses and repeats nothing |
| `Recovery.RedoRepeatsHistory` | recovery/log_recovery/log_recovery.go:103-173 | from any disk image whose pages stand at prefixes of the log, redo reaches the state after the whole log, slots and LSNs included, and running it twice is running it once |
| `Recovery.LsnGrows` | storage/access/table_page.go:76-110 | page LSNs only grow over a history, and a page without a record in between is unchanged |
| `Recovery.LsnIsLast` | storage/access/table_page.go:76-110 | a page carries the LSN of the last record done on it |
| `Recovery.LastWriteWins` | recovery/log_recovery/log_recovery.go:129-173 | a row replayed without some records is what the last record not left out put there |
| `Recovery.UndoOutcomeExact` | recovery/log_recovery/log_recovery.go:201-245 | for every legal log and any order that takes a row's records back newest first: undo gets through its page assertions if and only if every undone INSERT finds its row, and then the row ends up as if the undone records had never been if and only if `Spoiled` is false: at the last step that decides the row an undone UPDATE found a live row and room, an undone APPLYDELETE put its row back here, and no other row (but for one of the very same bytes) landed here |
| `Recovery.UndoKeepsLsn` | recovery/log_recovery/log_recovery.go:236-241 | undo changes no page's LSN |
| `Recovery.RedoAfterUndo` | recovery/log_recovery/log_recovery.go:103-248 | after redo and undo every page carries the LSN of the last record done on it, so that redo of the same log would leave all pages as undo made them |
| `Recovery.OnlyInsertsPanic` | storage/access/table_page.go:265-334 | of the assertions in the page calls of undo, only that of an undone INSERT on an empty slot can fail, in any order of undo |
| `Recovery.UndoNeverPanics` | storage/access/table_page.go:265-297 | no assertion fails when rows are taken back newest first and every undone APPLYDELETE lands on its own RID |
| `Recovery.RowPresent` | recovery/log_recovery/log_recovery.go:201-245 | as long as every undone APPLYDELETE lands on its own RID, no row that should be there is missing on the way |
| `Recovery.UndoSlot` | recovery/log_recovery/log_recovery.go:208-245 | one undo step whose page assertion holds, row by row: the record's own row changes as stated, a reinserted row shows up where the page puts it, and no other row changes |
| `CrashSafety.ChainExact` | recovery/log_recovery/log_recovery.go:208-245 | the prev-LSN walk visits exactly one transaction's records, newest first, each once |
| `CrashSafety.ActiveMeans` | recovery/log_recovery/log_recovery.go:118-180 | `active_txn` after redo holds exactly the transactions without a COMMIT, with their last LSN |
| `CrashSafety.UndoListExact` | recovery/log_recovery/log_recovery.go:201-245 | whatever order the map iteration takes, undo visits exactly the losers' records, each once |
| `CrashSafety.CommittedNotMarked` | storage/access/transaction_manager.go:56-82 | the row that committed transactions leave is not marked, since commit settles every deletion |
| `CrashSafety.RecoveryRestoresCommitted` | recovery/log_recovery/log_recovery.go:103-248 | for any page stamps and any loser order: recovery gets through if and only if no page assertion of an undo step fails, and then a RID that nobody reused after an abort has exactly the row of the committed transactions' records alone, if and only if no undo step goes wrong at it (`Spoiled`) |
| `CrashSafety.RecoveredPagesStamped` | recovery/log_recovery/log_recovery.go:103-248 | recovery leaves every page with the LSN of the last record done on it, for any page stamps and loser order; after a second crash redo finds nothing to do |
| `CrashSafety.RecoveryPanicsExact` | recovery/log_recovery/log_recovery.go:201-248 | recovery panics if and only if undo takes back an INSERT whose row is not there |
| `CrashSafety.RecoveryGetsThrough` | recovery/log_recovery/log_recovery.go:201-248 | recovery does not panic if no row a loser wrote was reused after an abort and undone APPLYDELETEs put their rows back in place |
| `CrashSafety.RestoredWithoutRoom` | recovery/log_recovery/log_recovery.go:103-248 | where no loser applied a delete on the page and losers updated only rows they had inserted, recovery that gets through brings the committed row back whatever room there is |
| `LogRecoveries.OneWindowCutsOk` | recovery/log_recovery/log_recovery.go:103-127 | a log that fits the read buffer is read without cutting a record |
| `LogRecoveries.LogRecovery.Redo` | recovery/log_recovery/log_recovery.go:103-199 | on the bytes of log and pages: each record is looked at once, pages, `active_txn` and `lsn_mapping` come out as the specification says, each NEWPAGE adds one empty page behind the others, no link changes, and the scan fails if and only if a window cuts a record behind its header |
| `LogRecoveries.LogRecovery.Undo` | recovery/log_recovery/log_recovery.go:201-248 | on the bytes: the losers' chains are read back through `lsn_mapping` and undone, for some iteration order of `active_txn`, and no LSN or link changes; it ends in a failed page assertion if and only if a record of that order cannot be taken back |
| `LogRecoveries.LogRecovery.Recover` | recovery/log_recovery/log_recovery.go:103-248 | the whole recovery on bytes, for every engine log: fails exactly where a window cuts a record or an assertion fails, and else leaves the pages of redo and undo, each with the LSN of the last record done on it, and one empty page for each NEWPAGE, with the committed row at every RID not reused after an abort if and only if no undo step goes wrong at it |
| `LogCuts.ScanFails` | recovery/log_recovery/log_recovery.go:112-126 | a run of the engine whose log has records of at most 24 bytes and a first window that ends right behind a header, so that the scan fails |
| `Engines.RunKeeps` | storage/access/transaction_manager.go:30-130 | every run of begins, shared locks, locked writes with unchecked upgrades, page allocations, commits, aborts, log flushes and page writes behind the log writes a legal, well-chained log in which a row changes hands only after a COMMIT or an ABORT and no mark is left at a COMMIT, and leaves on disk a page image behind the durable part of that log |
| `Engines.CommittedIsDurable` | storage/access/transaction_manager.go:76-82 | once a commit has returned, all records of the transaction are on disk and recovery does not count it among the losers |
| `Engines.EveryCrashRecovers` | recovery/log_recovery/log_recovery.go:103-248 | after any run of the engine, recovery of what is then on disk, in any loser order, gets through if and only if no page assertion of an undo step fails, and then has at a RID not reused after an abort the committed row, if and only if no undo step goes wrong at it (`Spoiled`) |
| `ReusedRows.LastStepDecides` | recovery/log_recovery/log_recovery.go:201-245 | for every engine log, loser order and RID, reused or not: a last undo step that takes back an INSERT or UPDATE takes back the oldest record of its transaction on the row and leaves the row as it was just before that record, or untouched if it cannot change it |
| `ReusedRows.AbortedImageWins` | recovery/log_recovery/log_recovery.go:118-180 | if that record is older than the last committed write or deletion, its transaction had aborted, and the committed row survives only where what is left is the very same row |
| `ReusedRows.CommittedImageBack` | recovery/log_recovery/log_recovery.go:201-245 | if it is newer, with nothing on the row in between, the committed row is restored if and only if the step can change the row back: always for an INSERT, with a live row and room for an UPDATE |
| `ReusedRows.MarkedRowsRestored` | recovery/log_recovery/log_recovery.go:225-236 | a row that losers only marked and unmarked is restored in whatever order they are undone, reused or not, unless another row is put into its slot |
| `RecoveryLimits.AbortedInsertPanics` | storage/access/table_page.go:290-294 | runs of the engine with one aborted insertion of 4057 to 4064 bytes after which recovery panics |
| `RecoveryLimits.ShortenedRowStays` | recovery/log_recovery/log_recovery.go:208-245 | runs of the engine after which an undone UPDATE has no room and the uncommitted row stays |
| `RecoveryLimits.DeletedRowMoves` | recovery/log_recovery/log_recovery.go:208-245 | runs of the engine after which a row deleted without COMMIT comes back at another RID |
| `RecoveryLimits.AbortedTransactionUndoneTwice` | recovery/log_recovery/log_recovery.go:118-180 | runs of the engine with an abort after which recovery wipes out a committed row and revives the aborted one |
| `LockManagers.LockManager.LockShared` | storage/access/lock_manager.go:155-192 | grants and table changes are those of the specification: refused only under another's write lock |
| `LockManagers.LockManager.LockExclusive` | storage/access/lock_manager.go:195-223 | grants and table changes are those of the specification: only with no other holder, or to the owner |
| `LockManagers.LockManager.LockUpgrade` | storage/access/lock_manager.go:226-255 | granted to any sharer, as the code does; the row moves from the shared to the exclusive set |
| `LockManagers.LockManager.Unlock` | storage/access/lock_manager.go:258-286 | the given rows lose this transaction's locks in both tables |
| `LockManagers.LockManager.ReleaseLocks` | storage/access/transaction_manager.go:139-147 | unlocks everything in both of the transaction's sets |
| `LockManagers.Remove` | storage/access/lock_manager.go:118-138 | the list without the first occurrence, order kept |
| `LockManagers.Contains` | storage/access/lock_manager.go:140-149 | membership, as a loop |
| `LockManagers.Transaction.IsSharedLocked` | storage/access/transaction.go:147-152 | membership in the shared lock set |
| `LockManagers.Transaction.IsExclusiveLocked` | storage/access/transaction.go:154-159 | membership in the exclusive lock set |
| `Locks.LockSharedOk` | storage/access/lock_manager.go:155-192 | a shared lock is refused if and only if another transaction has the write lock, a refused request changes nothing, and a granted one changes nobody else's locks and no other row's; write locks stay exclusive and the transaction's own sets in step with the tables |
| `Locks.LockExclusiveOk` | storage/access/lock_manager.go:195-223 | an exclusive lock is granted if and only if the transaction has it already or nobody holds the row, empty sharer lists included; the same holds of what it changes and keeps |
| `Locks.UpgradeNeedsSoleSharer` | storage/access/lock_manager.go:226-255 | the upgrade is always granted, leaves the transaction among the sharers, touches nobody else's locks, and keeps the tables in order if and only if the caller is the only sharer |
| `Locks.ReleaseOk` | storage/access/lock_manager.go:258-286 | after releasing, the transaction holds nothing and nobody else lost anything |
| `Locks.FreeAfterRelease` | storage/access/lock_manager.go:195-286 | once a transaction that alone held a row has released its locks, any other gets either lock on it |
| `Locks.WriterAdded` | storage/access/lock_manager.go:195-255 | with any number of sharers, an upgrade is refused if and only if another transaction has the write lock; exclusive locks and upgrades leave at most one writer of a row, and every live transaction's own set agrees |
| `Locks.ReleaseWriters` | storage/access/lock_manager.go:258-286 | so does the release of a transaction's locks |
| `Serializability.ReleaseOrderSerializes` | storage/access/transaction_manager.go:84-86 | in every run with accesses under granted locks and release at the end, the order of lock release agrees with every per-row conflict |
| `Serializability.ReadsTheSame` | storage/access/transaction_manager.go:84-86 | every access finds the same write in the run as in the serial execution in release order |
| `Serializability.UpgradeBreaksSerializability` | storage/access/lock_manager.go:226-255 | the unchecked upgrade admits a run whose conflicting accesses no ranking of the transactions puts in order |
| `Heaps.InsertAddsOneRow` | storage/access/table_heap.go:55-99 | a tuple of 1 to 4064 bytes takes exactly one RID that was empty; all other rows stay and the heap stays well-formed |
| `Heaps.InsertTakesFirstFit` | storage/access/table_heap.go:62-95 | the tuple goes to the first page of the chain that fits with it in a new slot, into its lowest free slot, and to a new last page if and only if there is none |
| `Heaps.FreshPageTakes` | storage/access/table_heap.go:62-95 | a new page takes exactly the tuples of 1 to 4064 bytes, so the search for a page ends |
| `Heaps.TooLongForAnyPage` | storage/access/table_heap.go:62-95 | a longer tuple is refused by every page, so the search would extend the chain for ever |
| `Heaps.AbortExact` | storage/access/transaction_manager.go:92-115 | with rows as the transaction left them, rollback restores every touched row and leaves the rest alone if and only if each undone update finds room on its page |
| `Heaps.AbortIsInverse` | storage/access/transaction_manager.go:92-115 | that equivalence for every run of inserts, in-place and moving updates and deletes with others at work on other rows |
| `Heaps.StepKeepsBase` | storage/access/transaction_manager.go:92-115 | no step of the transaction itself changes what rollback should put back at any RID; others' steps change it exactly where they change the row |
| `Heaps.AbortRestoresStart` | storage/access/transaction_manager.go:92-115 | after any run of a transaction alone, rollback brings back the heap it started from, row by row, if and only if each undone update finds room |
| `Heaps.ChangedRowsNoted` | storage/access/table_heap.go:103-172 | after such a run every row that differs from the start is in the write set |
| `Heaps.ShrunkRowLost` | storage/access/transaction_manager.go:92-115 | a run whose update shortens a row, lets others take the room and aborts: rollback leaves the short row, marked, in place of the old one |
| `Heaps.RunKeepsWork` | storage/access/table_heap.go:103-150 | over every such run the write set describes the transaction's changes row by row |
| `Heaps.UpdateExact` | storage/access/table_heap.go:103-150 | a live row changes in place if and only if the page fits with the new row; otherwise it stays behind marked and exactly one RID, empty before, holds the new row, and the INSERT entry of the write set names that RID; every other row is as it was, and a row that is not live is left alone without an entry |
| `TableHeaps.TableHeap.InsertTuple` | storage/access/table_heap.go:55-99 | along the page chain to the first page with room or to a new last page; one row and one write-set entry more |
| `TableHeaps.TableHeap.UpdateTuple` | storage/access/table_heap.go:103-150 | on the page bytes, rows and write set change as `Heaps.UpdateExact` says, except that an aborted transaction gets no UPDATE entry; the new RID is returned exactly for a moved row |
| `TableHeaps.TableHeap.MarkDelete` | storage/access/table_heap.go:152-172 | marks a live row and notes it; otherwise nothing |
| `TableHeaps.TableHeap.RollbackDelete` | storage/access/table_heap.go:186-195 | a marked row is live again, nothing else changes |
| `TableHeaps.TableHeap.ApplyDelete` | storage/access/table_heap.go:174-184 | the row is gone, nothing else changes |
| `TableHeaps.TableHeap.GetTuple` | storage/access/table_heap.go:198-209 | a live row whose lock can be had; otherwise nothing, and the transaction is aborted exactly when the code aborts it |
| `TableHeaps.TableHeap.FirstRid` | storage/access/table_heap.go:212-231 | the first occupied place of the chain |
| `TableHeaps.NewFirstPage` | storage/access/table_heap.go:27-36 | a heap of one empty page |
| `PageStores.PageStore.AppendPage` | storage/access/table_heap.go:80-92 | a new page linked both ways behind the last one, all other pages unchanged |
| `Scans.EveryPlaceOnce` | storage/access/table_heap_iterator.go:40-72 | the scan's order visits every occupied slot of the chain exactly once |
| `Scans.ScanOrder` | storage/access/table_heap_iterator.go:40-72 | it goes along the chain, and on each page from the lowest slot up |
| `Scans.YieldsExact` | storage/access/table_heap_iterator.go:40-72 | the iterator gives the rows of the first places, as far as each is live and its lock can be had, and stops at the first that is not |
| `Scans.ScanComplete` | storage/access/table_heap_iterator.go:40-72 | the iterator returns every live row if and only if no live row lies at or behind a place where it stops: a marked row or one locked by another transaction |
| `Scans.CleanScan` | storage/access/table_heap_iterator.go:40-72 | without marked rows and with all locks granted the scan returns each live row exactly once and nothing else |
| `TableHeapIterators.TableHeapIterator.constructor` | storage/access/table_heap_iterator.go:23-25 | starts with all rows the scan will return still to come |
| `TableHeapIterators.TableHeapIterator.Next` | storage/access/table_heap_iterator.go:40-72 | the rows still to come lose their first one; with logging on, a transaction that is not aborted has been stopped nowhere |
| `TableHeapIterators.ScanAll` | execution/executors/seq_scan_executor.go:44-64 | the driving loop returns exactly those rows; with logging on, a transaction not aborted got every live row |
| `TransactionManagers.TransactionManager.Begin` | storage/access/transaction_manager.go:30-54 | ids are never handed out twice, and the transaction is registered |
| `TransactionManagers.TransactionManager.Abort` | storage/access/transaction_manager.go:92-129 | the write set is taken back newest first on the page bytes, entries added on the way are dropped, and all locks are released |
| `TransactionManagers.TransactionManager.Commit` | storage/access/transaction_manager.go:56-90 | every deletion is applied on the page bytes and all locks are released |
| `TransactionManagers.CommitOutcome` | storage/access/transaction_manager.go:56-74 | after any run commit meets no empty slot, empties exactly the rows the transaction deleted and changes no other |
| `TransactionManagers.RollbackNeverPanics` | storage/access/transaction_manager.go:92-115 | rollback with room never calls a page operation that panics |
| `TransactionManagers.DeletedOnce` | storage/access/transaction_manager.go:56-74 | a transaction's write set names no row twice for deletion |
| `CircularLists.CircularList.Find` | storage/buffer/circular_list.go:25-36 | finds the node with the key, if the ring has one |
| `CircularLists.CircularList.Insert` | storage/buffer/circular_list.go:42-77 | a full ring refuses, a known key gets the value, a new key becomes the last node; the ring stays doubly linked with distinct keys |
| `CircularLists.CircularList.Remove` | storage/buffer/circular_list.go:79-104 | the node with the key leaves the ring and keeps its own links; head, tail and neighbours are joined |
| `CircularLists.CutRing` | storage/buffer/circular_list.go:98-101 | joining a node's neighbours leaves a ring |
| `ClockReplacers.ClockReplacer.Victim` | storage/buffer/clock_replacer.go:21-44 | removes exactly the frame under the hand, whatever its reference bit, and moves the hand to the next frame; nothing only when the ring is empty |
| `ClockReplacers.ClockReplacer.Sweep` | storage/buffer/clock_replacer.go:31-43 | the loop looks at one node only and clears its bit at most once |
| `ClockReplacers.ClockReplacer.Unpin` | storage/buffer/clock_replacer.go:47-56 | adds the frame at the end unless it is there or the ring is full; where the hand leads afterwards is exact |
| `ClockReplacers.ClockReplacer.Pin` | storage/buffer/clock_replacer.go:59-72 | removes the frame; the hand moves on exactly when it led to that frame |
| `BufferPoolManagers.BufferPoolManager.FetchPage` | storage/buffer/buffer_pool_manager.go:29-79 | the pool's state changes as specified on hit, miss, full pool and failed read (which loses the frame); the victim is the frame under the clock hand and the replacer's order is kept; the log is flushed exactly when a dirty page is evicted, before it is written, and a file covered by the log on disk stays covered |
| `BufferPoolManagers.BufferPoolManager.NewPage` | storage/buffer/buffer_pool_manager.go:127-157 | a pinned, clean page of zeros under a new id, with the same rules for the evicted page |
| `BufferPoolManagers.BufferPoolManager.UnpinPage` | storage/buffer/buffer_pool_manager.go:82-104 | one pin less, dirtiness kept; the replacer again knows exactly the unpinned frames, a new one last |
| `BufferPoolManagers.BufferPoolManager.FlushPage` | storage/buffer/buffer_pool_manager.go:107-124 | the page is written and loses a pin; the replacer stays in step if and only if that was not the last pin, and the file stays covered by the log on disk if and only if the page's last record is already there |
| `BufferPoolManagers.BufferPoolManager.DeletePage` | storage/buffer/buffer_pool_manager.go:160-192 | a pinned page is refused; otherwise page table, replacer and free list change together |
| `BufferPoolManagers.BufferPoolManager.RemoveFrom` | storage/buffer/buffer_pool_manager.go:47-64 | a victim is written only if dirty, and then the record that last changed it is among those in the log file |
| `BufferPoolManagers.TakeCovered` | storage/buffer/buffer_pool_manager.go:47-64 | write-ahead over the whole file: if every page in it was last changed by a record on disk, that still holds after an eviction |
| `BufferPoolManagers.BufferPoolManager.GetFrameId` | storage/buffer/buffer_pool_manager.go:209-221 | the head of the free list, else the replacer's victim, which is an unpinned mapped frame |
| `BufferPoolManagers.BufferPoolManager.constructor` | storage/buffer/buffer_pool_manager.go:232-242 | all frames free, nothing mapped |
| `PoolRuns.EvictionExact` | storage/buffer/buffer_pool_manager.go:47-64 | an eviction keeps every page's contents if and only if the victim is dirty or equal to its copy on disk |
| `PoolRuns.StepKeeps` | storage/buffer/buffer_pool_manager.go:29-192 | every step of clients that unpin changed and new pages as dirty keeps the pool equal to a plain page map, each page pinned once for each client that has it and marked dirty only if one let go of it so, and loses no frame |
| `PoolRuns.RunsKeep` | storage/buffer/buffer_pool_manager.go:29-192 | from a pool just opened, every run of such steps keeps all that; who has a page and which id comes next is counted from the calls alone |
| `PoolRuns.FetchReturnsLastWritten` | storage/buffer/buffer_pool_manager.go:29-79 | after any such run a fetch returns the bytes last written to the page, pinned once more than clients have it; it returns nothing if and only if clients have as many pages as there are frames and this is none of them |
| `PoolRuns.CreateReturnsNewPage` | storage/buffer/buffer_pool_manager.go:127-157 | after any such run a new page is zeros, pinned once, under an id no page has; there is none if and only if clients have as many pages as there are frames |
| `PoolRuns.HeldCount` | storage/buffer/buffer_pool_manager.go:29-192 | clients never have more pages than there are frames, and as many exactly when every frame is pinned |
| `PoolRuns.AnswersExact` | storage/buffer/buffer_pool_manager.go:82-192 | a page somebody has is found when unpinned or flushed, and a page is deleted if and only if nobody has it |
| `PoolRuns.HeldPagesStay` | storage/buffer/buffer_pool_manager.go:29-192 | whatever is called, a page somebody has stays in its frame |
| `PoolRuns.EvictedOnlyWhenFull` | storage/buffer/buffer_pool_manager.go:209-221 | a page is evicted only if every frame holds a page and nobody has this one |
| `PoolRuns.DiskWritesExact` | storage/buffer/buffer_pool_manager.go:47-124 | only the bytes last written to a page reach the file, and only if it is flushed or was let go of as dirty; a flush of a page somebody has writes it |
| `Pools.FetchOk` | storage/buffer/buffer_pool_manager.go:29-79 | free, mapped and lost frames stay a partition |
| `Pools.TakeFrameOk` | storage/buffer/buffer_pool_manager.go:209-221 | a frame taken for use is in none of the three parts |
| `Pools.FailedReadLosesFrame` | storage/buffer/buffer_pool_manager.go:66-70 | a page the file does not have costs the pool exactly one usable frame |
| `Pools.FreedFramesQueue` | storage/buffer/buffer_pool_manager.go:187-213 | of the frames freed by deletions the one freed longest ago is used first |
| `HashBlocks.HashTableBlockPage.Insert` | storage/page/hash_table_block_page.go:43-52 | an unused slot gets the pair and both bits; a used one, readable or not, refuses |
| `HashBlocks.HashTableBlockPage.Remove` | storage/page/hash_table_block_page.go:54-60 | clears the readable bit only: key and value stay behind |
| `HashBlocks.BitAtSet` | storage/page/hash_table_block_page.go:43-60 | setting or clearing one bit of a bitmap changes no other bit |
| `ProbeTables.HashTableIterator.Next` | container/hash/linear_probe_hash_table_iterator.go:32-50 | bucket and offset step around the whole table, slot by slot |
| `ProbeTables.LinearProbeHashTable.GetValue` | container/hash/linear_probe_hash_table.go:48-80 | collects along the run from the hash's home, around the end of the table, within one lap |
| `ProbeTables.LinearProbeHashTable.Insert` | container/hash/linear_probe_hash_table.go:82-120 | duplicate, stored or full exactly as specified, within one lap, with every used slot still reachable |
| `ProbeTables.LinearProbeHashTable.Remove` | container/hash/linear_probe_hash_table.go:122-151 | every matching pair on the run becomes a tombstone, within one lap |
| `Probes.LookupComplete` | container/hash/linear_probe_hash_table.go:48-80 | a lookup finds every value stored under the hash, each as often as it is stored |
| `Probes.FoundInOrder` | container/hash/linear_probe_hash_table.go:48-80 | it returns them in the order in which it passes their slots, one for each slot |
| `Probes.HomesUsed` | container/hash/linear_probe_hash_table.go:48-62 | block and place are both taken from the same hash, so with an even number of blocks no search starts at half of the slots |
| `Probes.InsertAddsOne` | container/hash/linear_probe_hash_table.go:82-120 | an insertion adds exactly its pair if and only if a slot is vacant and the value is nowhere on the run, and is refused as a duplicate if and only if it is; otherwise nothing changes, and no other pair ever does |
| `Probes.RemoveTakesAll` | container/hash/linear_probe_hash_table.go:122-151 | a removal takes out every copy of its pair and no other, and every used slot stays reachable |
| `Probes.TombstoneRefuses` | container/hash/linear_probe_hash_table.go:99-110 | a value once removed under a hash cannot be stored under it again |
| `Values.RoundTrip` | types/column_value.go:48-101 | a value comes back from its bytes, NULL or not, if and only if it is not a varchar of more than 32764 bytes |
| `Values.BytesRoundTrip` | storage/tuple/tuple.go:106-164 | the bytes copied out are the value's own if and only if it is not a varchar of more than 32767 bytes |
| `Values.EqualIsSameBytes` | types/column_value.go:103-121 | apart from floats, values are equal exactly when their bytes are |
| `Values.EqualsExact` | types/column_value.go:103-121 | two values are equal if and only if both are NULL, or neither is and they are the same integer, Boolean or string, or floats for the same number or infinity |
| `Values.FloatEqualsExact` | types/column_value.go:103-121 | two float patterns compare equal if and only if neither is a NaN and they stand for the same real number or infinity, decoded from sign, exponent and fraction |
| `Values.SampleValues` | types/column_value.go:221-246 | the bytes of an integer, a varchar, a Boolean and a NULL |
| `Values.ZerosDiffer` | types/column_value.go:103-121 | the two float zeros are equal but have different bytes, which are given |
| `Tuples.TupleRoundTrip` | storage/tuple/tuple.go:35-104 | for every schema and matching row each column reads back as stored, whatever the other columns hold, with the same exact bound |
| `Tuples.KeyRoundTrip` | storage/tuple/tuple.go:106-164 | the same for the key bytes of a column |
| `Tuples.SampleTuple` | storage/tuple/tuple.go:35-59 | the bytes of a tuple of an integer, a varchar and a Boolean |
| `Tuples.NewTupleFromSchema` | storage/tuple/tuple.go:35-59 | the in-place writes fill the tuple exactly: fixed part, then varchars in order |
| `Tuples.Tuple.GetValue` | storage/tuple/tuple.go:92-104 | reads the column the schema's offset leads to |
| `Tuples.Tuple.GetValueInBytes` | storage/tuple/tuple.go:106-164 | copies that column's bytes |
| `Tuples.Schema.constructor` | storage/table/schema/schema.go:15-36 | every column gets the sum of the fixed lengths before it |
| `Tuples.SearchTupleWorks` | storage/tuple/tuple.go:64-90 | the search tuple has a value for every column if and only if no column is Boolean, and then carries the key |
| `Tuples.GenTupleForHashIndexSearch` | storage/tuple/tuple.go:64-90 | without Boolean columns, the tuple of the search values |
| `HashJoins.JoinExact` | execution/executors/hash_join_executor.go:91-170 | for keys of the types the hash takes, the operator's output is the nested-loop join, pairs in order and as often, if and only if no two equal keys hash differently |
| `HashJoins.NestedLoopExact` | execution/executors/hash_join_executor.go:91-170 | the nested-loop join is every pair of rows whose keys are not NULL and are the same integer, string or real number, each once, by right row and then by left row |
| `HashJoins.IntegersAndVarcharsJoin` | execution/executors/hash_join_executor.go:91-170 | for integer and varchar keys it always is, whatever the collisions |
| `HashJoins.FloatMissesAreZeros` | execution/executors/hash_join_executor.go:91-170 | float keys are missed only where one side has 0 and the other -0 |
| `HashJoins.HashJoinExecutor.Init` | execution/executors/hash_join_executor.go:91-115 | all output is still to come: left tuples with a NULL key are in no bucket |
| `HashJoins.HashJoinExecutor.Next` | execution/executors/hash_join_executor.go:120-170 | returns the first pair still to come and leaves the rest, over the nested loops and their early exits |
| `HashJoins.Join` | execution/executors/hash_join_executor.go:64-170 | the operator run to its end returns all of that output |
| `Indexes.PackedRidComesBack` | storage/index/linear_probe_hash_table_index.go:73-101 | a RID survives packing if and only if page id and slot are below 65536 |
| `Indexes.UnpackedValueComesBack` | storage/index/linear_probe_hash_table_index.go:73-101 | every index value packs the RID it unpacks to |
| `Indexes.ScanComplete` | storage/index/linear_probe_hash_table_index.go:47-71 | after any run of additions and deletions a scan returns an entry if and only if an addition of it was accepted and not deleted since |
| `Indexes.EqualKeysMeet` | storage/index/linear_probe_hash_table_index.go:47-71 | rows with equal keys, floats apart, and the search tuple for the key have the same key bytes |
| `Indexes.LinearProbeHashTableIndex.InsertEntry` | storage/index/linear_probe_hash_table_index.go:47-52 | packs the RID under the key's hash; a refusal by the table is dropped |
| `Indexes.LinearProbeHashTableIndex.DeleteEntry` | storage/index/linear_probe_hash_table_index.go:54-59 | takes the RID's entry out under the key's hash |
| `Indexes.LinearProbeHashTableIndex.ScanKey` | storage/index/linear_probe_hash_table_index.go:61-71 | the RIDs unpacked from what the probe finds, in order; that stored values are uint32 is part of the index's invariant |

## Left out

- Files, operating system and directories: the database file is a sequence of pages (a page past its end cannot be read, a gap reads as zeros), the log file a sequence of bytes, and writes do not fail.
- Mutexes, latches and goroutines: every call is one atomic step; the interleavings that are modelled are those between transactions' steps.
- Murmur3: an arbitrary function from bytes to hashes.
- Pointer casts between page types: table pages, hash blocks and the hash header are typed; a hash table's header page is the list of its block pages.
- The aliasing of a page's bytes between the buffer pool and a client: the pool's pages hold their bytes as a value that clients replace, and table pages own their array.
- TablePages.TablePage.UpdateTuple: does not model the merge of single columns (`update_col_idxs`); the new tuple replaces the old one whole. A tuple is its bytes, with `size` equal to their number and below 2^32 - 8.
- TablePages.TablePage.InsertTuple: logging and locking inside page operations are modelled in `Engines` and `Locks`, not in the page object.
- LogRecoveries.LogRecovery.Redo: a NEWPAGE record allocates a page that no row of the statement is on, as pages are formatted beforehand and next-page links are not logged; record type codes the code never writes do not occur.
- LogRecoveries.LogRecovery.Recover: one log generation (LSNs start at 0 again after reopening) and one recovery run, apart from what `CrashSafety.RecoveredPagesStamped` says of redo in a second one; a record half written at the crash is not in the log.
- Engines.RunKeeps: pages are formatted beforehand and page ids fixed, so that allocating one only writes its record; a transaction commits once no row it marked is marked still, which `TransactionManagers.CommitOutcome` proves of commit; the step that writes a page demands the write-ahead that `BufferPoolManagers` proves of evictions, so checkpoints are not among the steps.
- LogRecords.DecodeTorn: what Go reads from stale bytes behind a cut record, and the page change it may make before it panics, are not modelled; the outcome is `Torn`.
- LogManagers.LogManager.AppendLogRecord: needs a record no longer than the buffer; Go slices out of bounds otherwise.
- Serializability.ReleaseOrderSerializes: needs upgrades by sole sharers only; new transactions do not reuse an old transaction object.
- TableHeaps.TableHeap.InsertTuple: needs 1 to 4064 bytes; for other sizes the code panics on the missing RID or never ends. A refused lock on the new row is not modelled, nor the log record, which is a step of `Engines`.
- TableHeaps.TableHeap.UpdateTuple: refused locks and the ABORTED state they lead to are not modelled, nor the column merge.
- TableHeaps.TableHeap.MarkDelete: refused locks and the ABORTED state they lead to are not modelled.
- TableHeapIterators.ScanAll: does not model the executor's predicate and projection.
- TransactionManagers.TransactionManager.Abort: the write set is over one table; the ABORT record is a step of `Engines`.
- TransactionManagers.TransactionManager.Commit: the write set is over one table; the COMMIT record and the flush behind it are a step of `Engines`.
- TransactionManagers.TransactionManager.Begin: the BEGIN record is a step of `Engines`; does not model restarting a given transaction object, whose old lock sets would stay.
- TableHeaps.TableHeap.GetTuple: the second lock request inside the page changes nothing and is left out.
- BufferPoolManagers.BufferPoolManager.FetchPage: page ids whose file offset overflows int32 (from 2^19 on) and negative page ids other than as failed reads.
- PoolRuns.StepKeeps: needs clients that fetch pages which exist, so no read fails, and that flush no page on its last pin.
- `FlushAllPages`: `FlushPage` for each page of the table.
- ProbeTables.LinearProbeHashTable.Insert: growth of the table, which the code does not support, and the pinning of block pages on the way.
- HashJoins.HashJoinExecutor.Next: left tuples are kept in an append-only store in place of `TmpTuplePage`, whose unsigned space check can wrap; the end of the output is `None`, where the code returns an error; the output tuple is the pair of rows.
- Indexes.LinearProbeHashTableIndex.ScanKey: may also return rows whose key merely has the same hash, as the code does.
- Values.RoundTrip: floats are their 32-bit patterns; ordering comparisons, `Add`, `Max` and `Min` are not modelled.
- Tuples.SearchTupleWorks: only the four types the values can have.
- The SQL parser, planner, catalog and the aggregation, order-by, limit, index-scan, insert, update and delete executors.
- Deadlock detection and the lock manager's graph interface, which are stubs.
- Checkpoints apart from what `FlushPage` says about them, page deallocation and the reuse of page ids.
