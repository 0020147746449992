# vDB: a verified model of the storage engine

vDB keeps fixed-size records in a data file of 512-byte pages, finds them through a single-leaf B-Tree, and survives
crashes by a redo journal. This project models that stack and the two hash routines beneath it, and proves what the
operations do over whole runs, at every crash point and down to the bytes of the files.

- **Bytes.** `Words`, `BitWords`, `Crc` (long division and the table), `Sha1` (FIPS 180-4 and the streaming context),
  `MachineWords` (the word operations are those of a 32-bit machine), `HashExample` and `CrcExample` (the published
  digest of "abc" and check value), `Strings` (case-insensitive comparison and keys), `Formats` (the offset of every
  field in the files, and the writes of each operation field by field).
- **Index.** `Leaf` (entries, page encoding, the map they keep) and `BTree` (the file, and the class whose methods read,
  change and write back its one leaf page), `IndexRuns` (any sequence of changes to a new index).
- **Storage.** `DbTypes`, `DbCodec` (byte layouts), `Pages` (runs of pages and the records in them), `Disk` (the files as
  their atomic writes change them), `Allocator` (the free list), `Directories` (the primary index as a map).
- **Operations.** `Engine` says which writes each record operation makes, in order; `Refinement`, `Maintenance` and
  `Compaction` prove what they keep; `PlainMap` puts them together into whole runs that answer like a plain map, and
  `Headers` follows every field of the header through them.
  `Scans` says what a rebuilt index holds over any pages, `Anchors` what the operations do where the index names a run
  that is not whole or has the next id already, and `Upkeep` what rebuilding the index and compacting do there and when
  they are cut short.
- **Crashes.** `Journal` (replay and why it converges), `Recovery` (opening a database), `Crash` (a crash inside one
  operation), `Transactions` (a crash anywhere in a transaction), `Restarts` (crashes during recovery), `Torn`
  (records of several pages cut by a crash), `AnyCrash` (what is read after a crash at any write of a transaction, for
  records of any size), `Outside` (a crash where there is no transaction), `Covered` (a run in which an unfinished
  record destroys another), `Mending` (a way back to a whole database), `Salvage` (a crash at any write of any operation
  and the way back from it), `WholeRuns` (runs with transactions and crashes in them).
- **The program's own form.** `Database` is the class with the file contents, header, free-list array and index object
  that the methods update in place; `Files` relates the bytes to typed values. Each method's contract says which writes
  it makes and what the state is afterwards, in terms of the operation specified in `Engine`, `Maintenance`,
  `Compaction` or `Recovery`. The writes are a ghost trace; that its changes of the index file are exactly those that the
  index object logged is part of the class invariant. `Lookup` is the search by string.

A crash leaves a prefix of the writes of a run on disk: each 512-byte page write, each 518-byte journal append, each
truncation, the removal of the data file and the renaming of its copy is one atomic, durable step in program order.

The storage invariant has several strengths. `Engine.Operable` is what the record operations need to run at all: an index
and a free list that name pages of the file. `Anchors.Anchored` adds an exact free list and that each key starts at an
active page with its id; every recovery of a transaction leaves it. `Engine.Coherent`: the index maps each live id to a
run of one active page and its continuation pages, the free list holds distinct empty pages and the counts are right.
`Engine.Core` adds that no live id will be handed out again; every record operation keeps it, failed additions included.
`Engine.Full` adds that no page is lost: every page is empty or belongs to a record. It holds after every run in which
the additions have room in the index, and after the repair of `Mending.Mends`.

## Where the code does less than its documentation says

- `docs/db.md` calls the journal a way to complete interrupted operations. A multi-page operation has no commit mark. A
  crash between its journal entries leaves an updated record that can be neither old nor new (`Torn.TornUpdate`,
  `Torn.MixedIsNeither`), an added record that is counted but cannot be read (`Torn.TornAdd`), and a deleted record
  whose remaining pages are lost (`Torn.TornDelete`).
- `docs/db.md` says `next_record_id` never decreases, but recovery does not recompute it. After a crash inside an
  addition, between its first journal entry and its header write, the next id is a key of the recovered index
  (`AnyCrash.CrashReads`, exactly then; `AnyCrash.AdditionCanStop` shows that this occurs in every addition). The next
  addition then gives that id out again. It returns TRUE, and its record can be found for every content exactly when
  the next id is not a key (`Anchors.NewRecordFound`, `AnyCrash.AdditionAfterCrash`); a lookup of a key goes on giving
  what it gave: the live record (`Restarts.AddReusesLiveId`), or nothing when only some entries of a record of several
  pages were there (`Torn.TornAdd`).
- Updating or deleting such an unfinished record, or compacting the file with it, loses the records that start within its
  stretch of pages (`Anchors.UpdateReads`, `Anchors.DeleteReads`, `Upkeep.CompactLosesCovered`), and `Covered.CoveredRun`
  is a run from creation on in which one does. Even when none starts there, an update writes pages that the free list
  still names, and the next addition can erase the record (`Anchors.AdditionErases`, with the exact condition); a
  deletion counts the empty pages twice. `Anchors.UpdateAnchored` and `Anchors.DeleteAnchored` say exactly when neither
  happens. Deleting the next id and compacting before anything else is a way out (`Mending.Mends`).
- After an addition under an id in use, a rebuild of the index can change which of its two records the id reads
  (`Upkeep.RebuildSwitches`).
- A crash in the rebuild of the index, between its truncation and its header write, leaves a database that no longer
  opens, during recovery as well (`Restarts.RecoveryInterrupted`). `CompactDatabase` removes the data file before it
  renames the copy; a crash between the two leaves no data file (`Upkeep.CompactInterrupted`). At every other write of
  every operation the database opens, and can be mended (`Salvage.AnyPoint`). Outside a transaction nothing is repaired
  unasked: a crash later in a rebuild leaves an index of some of the records (`Upkeep.RebuildInterrupted`), and one in a
  compaction the old index over the new file.
- A transaction in which the file is compacted leaves a journal of page numbers of the old file; opening it again can
  destroy records that no operation touched (`Salvage.StrandedLoses`).
- `CompactDatabase` makes up the pages of a record that the end of a damaged file cuts off: nothing was found for its id,
  and afterwards a record with zeros in their place is (`Upkeep.CompactCompletes`).
- `RollbackTransaction` undoes nothing; it has the contract of `CommitTransaction`.
- A failed `AddRecord` leaves orphan pages in use (`Refinement.FailedAddLosesPages`). A later `RebuildIndex` makes the
  failed record appear and drops the last record of the file (`Upkeep.RebuildAfterFailure`).
- `docs/db.md` says journaled additions carry page number -1; the code journals the allocated pages. Entries without
  a page number would not survive a second replay (`Journal.AppendsAgain`).

## Model

| member | source | states |
|---|---|---|
| WholeRuns.WholeRunWithCrashes | src/db/journal.c:15-237 | after CreateDatabase every run of three kinds of events answers like a plain map: operations; transactions cut short at any write that leaves the journal at the end of an operation and not between an addition's entries and its header write, and only opened again, of which the map keeps the operations in the journal; and operations, inside a transaction or outside, cut short at any write that leaves a database that opens, and then mended, of which the map keeps the part that Salvage.AnyPoint says. In the end the records are those of the map, no page is lost and the database validates |
| Salvage.AnyPoint | src/db/record.c:14-361 | in every state of a run a crash after any number of the writes of any operation (add, update, delete, find, the three maintenance calls, begin, commit, close and open) leaves a database that opens, except exactly between the removal of the data file and the renaming of the copy and between the truncation of the index and the write of its header; whenever it opens, the repair of Mending.Mends makes it represent the plain map again: an addition is undone unless all its writes were there, a deletion is done once it has begun, an update has the new data in as many pages as were journaled or, outside a transaction, written |
| Salvage.AllWritten | src/db/record.c:14-361 | all the writes of an operation together lead to the disk after it, so the crash points of Salvage.AnyPoint reach from before the operation to its end |
| Mending.Mends | src/db/journal.c:15-37 | a way back to a whole database: open it, begin a transaction, close and open again (an empty replay rebuilds index, counts and free list), delete the next id (which removes what an unfinished addition left, and fails if there is nothing), and compact. From whole records and possibly one start of the next id, over pages that otherwise hold anything, each step can be taken and the result has exactly these records, no lost page and no free page |
| Mending.CompactMends | src/db/maint.c:160-267 | compacting a file in which the active pages are the starts of whole indexed records, whatever its other pages hold, loses no record and leaves no other page |
| Outside.AddCutReads | src/db/record.c:42-99 | an addition outside a transaction cut short before its header write: the database opens, every other lookup is as before, and the new record is found exactly when the only write missing is that of the header; the next id is not used up |
| Outside.UpdateCutReads | src/db/record.c:280-301 | an update outside a transaction cut short after k pages: the record has the new data in its first k pages and the old in the others, and every other lookup is as before |
| Outside.DeleteCutReads | src/db/record.c:341-358 | a deletion outside a transaction cut short: the record is gone as soon as its first page is emptied, and every other lookup is as before |
| WholeRuns.CrashRefines | src/db/journal.c:122-237 | from every state of a run: a crash after any number of the writes of a transaction that the plain map allows, and a restart, give the records of the map after the operations kept, no page lost; the reopened database represents that map, except that the next id is one less, and live, when the crash came between an addition's journal entries and its header write |
| WholeRuns.ReachedRefines | src/db/record.c:42-99 | the state after the operations in the journal is that of the plain map after as many of them |
| AnyCrash.CrashReads | src/db/record.c:42-99 | records of any size, a crash after any write of any sequence of Add/Update/Delete in a transaction: opening succeeds, every lookup gives the operations before the cut, an addition from its last journal entry on, a deletion from its first, an update piece by piece; the next id is a key exactly when the crash came inside an addition after its first journal entry and before its header write |
| AnyCrash.TransactionReads | src/db/journal.c:15-67 | the same for a crash at any write from BeginTransaction to CommitTransaction |
| AnyCrash.RestartsRead | src/db/journal.c:122-237 | the same after any number of crashes during the recovery, unless one of them left the index file truncated |
| AnyCrash.AdditionAfterCrash | src/db/record.c:29-31 | after any such crash and a restart, with room in index and file, the next addition succeeds, and can be found for every record exactly when the crash did not come inside an addition after its first journal entry and before its header write |
| AnyCrash.AdditionCanStop | src/db/record.c:42-67 | every addition has a write after which exactly m of its journal entries are on disk, for each m from 1 to its pages, so both ways of leaving the next id in the index occur |
| Transactions.CrashAtomicity | src/db/record.c:42-99 | a crash after any write of any sequence of Add/Update/Delete inside a transaction, leaving the journal at the end of an operation: opening finds exactly the records after the journaled operations, with index, counts and free list consistent and no page lost; no live id is above the next id, which is itself live exactly when the crash came between an addition's journal entries and its header write |
| Transactions.CrashReaches | src/db/record.c:255-303 | the induction over the operations: what the replayed pages are after a crash at any write |
| Transactions.TransactionCrash | src/db/journal.c:15-67 | a crash at any write from BeginTransaction to CommitTransaction is recovered to the records before the transaction, after it, or after the operations in the journal |
| Transactions.OnePageTransactionCrash | src/db/journal.c:15-67 | with one-page records that holds at every write, without a condition |
| Transactions.OperationCrash | src/db/record.c:329-358 | inside one operation: what recovery would replay when none or all of its entries are in the journal, and that only the operation's own header write changes the next id |
| Restarts.RecoveryInterrupted | src/db/journal.c:122-237 | from any pending transaction whose journal names pages of the file: recovery cut short after any number of its writes can start over and comes to the same memory and files, but for the journal file, except exactly between the truncation of the index and the write of its header, when the database no longer opens |
| Restarts.RecoverySurvivesCrashes | src/db/journal.c:122-237 | any number of crashes during recovery: the next opening comes to the same state, unless the index file was left truncated |
| Restarts.RecordsSurviveCrashes | src/db/journal.c:122-237 | so with a journal that ends at an operation the records are those after the operations in it, however often recovery was interrupted |
| Anchors.AddReads | src/db/record.c:14-103 | AddRecord where the index may name runs that are not whole, or the next id already: every other lookup goes on as before, and the new record is found exactly when the call succeeds and its id was not a key of the index |
| Anchors.NewRecordFound | src/db/record.c:29-31 | the exact condition under which the next addition can be found, when the index has room: for a given record exactly when the next id is not a key of the index or the same record is found under it already, and for every record exactly when the next id is not a key |
| Anchors.AddSucceedsWhile | src/db/record.c:92-102 | with one page for each key an addition succeeds exactly while fewer than 36 ids are indexed, also when its id is one of them |
| Anchors.UpdateReads | src/db/record.c:230-304 | UpdateRecord succeeds exactly on keys; the record is then found, whole or not before, and of the others exactly those are lost whose runs share a page with its stretch of pages |
| Anchors.UpdateAnchored | src/db/record.c:280-301 | updating keeps the free list exact and every key at an active page with its id if and only if no page of the record's stretch is empty and no other key starts in it, as when the record could be read; otherwise the free count is too large by the empty pages |
| Anchors.AdditionErases | src/db/db.c:143-199 | after the update of a record whose stretch has pages on the free list it is found; the next addition erases it exactly when the run that the list then gives starts behind the record's first page and in its stretch, which can be seen before the calls |
| Covered.CoveredRun | src/db/record.c:14-361 | a run from CreateDatabase on, for any records of two pages, in which all this happens: additions, a deletion, a transaction cut short after the first entry of an addition, recovery, an addition under the same id, a deletion, and an addition that gets a page of the unfinished record. Until then the new record is found; then updating the unfinished record, deleting it, or compacting the file each destroys the new one |
| Anchors.DeleteReads | src/db/record.c:306-361 | DeleteRecord succeeds exactly on keys; the id is then no key, and of the other records exactly those are lost whose runs share a page with its stretch of pages |
| Anchors.DeleteAnchored | src/db/record.c:341-358 | the same if and only if for a deletion, which otherwise counts the empty pages of the stretch twice |
| Restarts.AddReusesLiveId | src/db/record.c:29-31 | when the next id is live, an addition reuses it: lookups go on giving the old record, the new one cannot be found, and validation fails; the exact conditions are Anchors.NewRecordFound and Upkeep.AddValidates |
| Torn.TornUpdate | src/db/record.c:255-301 | a crash after k journal entries of a multi-page update: recovery succeeds, loses no page, leaves every other record alone, and the updated one has new data in its first k pages and old data in the rest |
| Torn.MixedIsNeither | src/db/record.c:255-301 | such a record is the old or the new one exactly when the two agree on one side of the cut |
| Torn.TornAdd | src/db/record.c:42-67 | a crash after some but not all journal entries of a multi-page addition: every id reads exactly as before it, while the unfinished record is counted and indexed and validation still passes |
| Torn.TornDelete | src/db/record.c:329-339 | a crash after at least one journal entry of a deletion: recovery finds the records without it, and unless all entries were there its other pages are lost |
| Journal.ReplayConverges | src/db/journal.c:149-202 | replaying a journal of entries that name their pages gives the same pages from any two states that differ only in pages it writes |
| Journal.ReplayTwice | src/db/journal.c:149-202 | replaying again, over all or part of a replay, changes nothing more |
| Journal.AppendsAgain | src/db/journal.c:180-197 | an entry that names no page is appended anew by each replay, so the two properties above need the named entries |
| Journal.RedoExactly | src/db/journal.c:151-202 | what the replay of one entry writes, and exactly when it writes nothing: a wrong checksum, an operation other than 1 to 3, or an update or deletion without the number of a data page |
| Journal.ImageAgrees | src/db/record.c:44-90 | the page rebuilt from the 518 bytes of an Add or Update entry is the page the operation writes, and the undamaged entry passes its checksum |
| Journal.EraseAgrees | src/db/record.c:330-348 | the same for the entries and pages of DeleteRecord |
| Journal.DamagedSkipped | src/db/journal.c:153-157 | an entry with damage inside sixteen consecutive bits of its covered bytes is skipped |
| Journal.RedoWriteEntries | src/db/journal.c:149-197 | replaying the first k entries of a record puts exactly its first k pages in place |
| Journal.RedoEraseEntries | src/db/journal.c:161-168 | replaying the first k entries of a deletion empties exactly the first k pages |
| Journal.RedoExtended | src/db/db.c:206-221 | pages the file grew by are untouched by replay |
| Crash.WriteEntriesReplay | src/db/record.c:255-278 | replaying all entries of a record, over any pages, overwrites its run with its images and nothing else |
| Crash.RecordCrash | src/db/record.c:42-90 | a crash anywhere in journaling and then writing a record: before the first entry replay changes nothing, after the last it completes the record whatever pages were written |
| Crash.AddCrash | src/db/record.c:36-99 | a crash at any write of AddRecord, allocation and index included |
| Crash.UpdateCrash | src/db/record.c:255-303 | a crash at any write of UpdateRecord |
| Crash.DeleteCrash | src/db/record.c:329-358 | a crash at any write of DeleteRecord |
| Crash.OperationKeeps | src/db/record.c:42-99 | each operation of a transaction ends with its entries in the journal and replay of the whole journal changing nothing |
| Recovery.RecoveryRebuilds | src/db/journal.c:204-234 | when the replayed pages hold whole runs and no lost page, opening gives a coherent database with exactly their records, the flag cleared and the next id as it was on disk |
| Recovery.RecoveredState | src/db/journal.c:204-234 | whatever the replayed pages hold: the index is what a scan of them builds, the free list is exact, the record count is the number of active pages and the next id is as it was on disk |
| Recovery.ReplayEffect | src/db/journal.c:122-237 | what the disk is after all writes of ReplayJournal |
| Recovery.RedoWritesEffect | src/db/journal.c:149-202 | the page writes of the replay loop give the redone pages |
| Recovery.CreateEffect | src/db/db.c:242-299 | whatever the files held before, the writes of CreateDatabase leave an empty database |
| Recovery.CreateInterrupted | src/db/db.c:274-296 | a creation cut short after any write: nothing opens between the truncation of the data file and its second page, nor between the truncation of the index and its header page; in between the new file opens with the old index, if there was one; whatever opens holds no record |
| Recovery.CloseEffect | src/db/db.c:364-390 | closing leaves header and free list on disk as in memory and the index as it was |
| PlainMap.WholeRun | src/db/db.c:242-299 | after CreateDatabase every allowed run of Add, Update, Delete, Find, UpdateFreePages, RebuildIndex(-1), CompactDatabase, Begin, Commit and close-and-reopen, inside transactions and outside, answers like a plain map of records, ends with its records, loses no page and validates; an addition is allowed while index and page numbers leave room, and closing is not allowed in a transaction after a compaction in it |
| Headers.WholeRunHeader | src/db/db.c:262-269 | after every run of operations from creation on each field of the header is known, in memory and on disk: count and next id of the plain map, the time of the last compaction, whether a transaction is open, and the rest as created |
| Headers.StepHeader | src/db/record.c:95-99 | each operation leaves the header of the plain map after it; only a compaction sets its time, and no other field changes |
| Headers.OpenedHeader | src/db/journal.c:210-229 | opening changes only the count, if it recovers, and the pending flag; without recovery nothing else on disk changes |
| Headers.NewHasNoIndex | src/db/db.c:268 | a new database lists no index, so no field is searched |
| PlainMap.StepRefines | src/db/record.c:14-361 | each such operation gives the plain map's answer and leaves a state that represents its new value |
| PlainMap.RunRefines | src/db/record.c:14-361 | the same for every run, from every represented state |
| WholeRuns.TransactionsCanBegin | src/db/journal.c:15-37 | in every state of a run outside a transaction one can begin; every sequence of operations that the plain map allows is then ready, operation by operation, and ends in a state that represents the map after it |
| PlainMap.IdsRise | src/db/record.c:29-31 | in any run the database gives each addition an id larger than every earlier one |
| PlainMap.PagesConserved | src/db/record.c:97-99 | records' pages, free pages and the two leading pages make up the file, modulo 2^16, and exactly if and only if fewer than 2^16 pages are empty |
| PlainMap.CreateRepresents | src/db/db.c:242-299 | a created database opens and holds no record |
| PlainMap.ReopenRefines | src/db/db.c:301-390 | closing and opening again changes no record; inside a transaction it ends the transaction, and recovery finds its operations |
| Salvage.StrandedLoses | src/db/journal.c:149-202 | closing in a transaction after a compaction in it: the journal names pages of the old file, and the replayed deletion of a record empties the pages of the record that has moved to its place, which was found until then |
| Refinement.AddKeeps | src/db/record.c:14-103 | when the next id is not live, AddRecord keeps index, runs, free list and counts agreeing, succeeds exactly while fewer than 36 records are indexed and adds exactly the new record |
| Refinement.AddKeepsCore | src/db/record.c:14-103 | AddRecord keeps the storage invariant whether it succeeds or not, succeeds exactly while fewer than 36 records are indexed, adds exactly the new record under an id no record has, and on failure leaves every record readable |
| Refinement.AddKeepsFull | src/db/record.c:14-103 | a successful AddRecord loses no page: runs, owned pages and counts stay exact |
| Refinement.FailedAddLosesPages | src/db/record.c:92-95 | no page is lost by an AddRecord exactly when it succeeds: a failed one leaves orphan pages |
| Refinement.UpdateKeeps | src/db/record.c:230-304 | in every coherent database, the next id live or not, UpdateRecord succeeds exactly on live ids and replaces that record alone; it keeps the invariant and loses no page |
| Refinement.DeleteKeeps | src/db/record.c:306-361 | in every coherent database, the next id live or not, DeleteRecord succeeds exactly on live ids and removes that record alone; it keeps the invariant |
| Refinement.DeleteKeepsFull | src/db/record.c:306-361 | a deletion loses no page |
| Engine.FindsRecords | src/db/record.c:105-160 | FindRecordByID gives the record of a live id and fails on every other id |
| Engine.AddEffect | src/db/record.c:42-99 | what the writes of AddRecord leave on disk, and that it succeeds exactly when the index takes the id |
| Engine.UpdateEffect | src/db/record.c:255-301 | what the writes of UpdateRecord leave on disk |
| Engine.DeleteEffect | src/db/record.c:329-358 | what the writes of DeleteRecord leave on disk |
| Pages.SplitAssemble | src/db/record.c:69-90 | assembling the pages a record was split into gives the record back, for every size from 1 to 65535 |
| Pages.RunsDisjoint | src/db/record.c:69-90 | different records share no page |
| Pages.AddRun | src/db/record.c:69-90 | writing a record of a new id over empty pages adds it and changes no other |
| Pages.UpdateRun | src/db/record.c:280-301 | overwriting a record's run changes that record alone |
| Pages.DeleteRun | src/db/record.c:341-348 | emptying a run removes that record alone |
| DbTypes.CalculatePagesNeeded | src/db/dbutil.c:213-219 | the pages of a record are just enough: one fewer would not hold it |
| Files.OffsetInRange | src/db/record.c:69-90 | the 16-bit offset never wraps before it is used |
| Files.Assembled | src/db/record.c:129-157 | the bytes copied page by page are the record's content |
| Allocator.AllocateSound | src/db/db.c:121-222 | AllocatePages grants consecutive empty pages from 2 up, none still listed; the list stays distinct empty pages, and the count is the empty pages less the granted ones, modulo 2^16 |
| Allocator.ListedRunTaken | src/db/db.c:138-192 | when the count guard passes and a run is listed, a listed run is taken, the file does not grow, and exactly its entries leave the list, the others in order |
| Allocator.LastListedTaken | src/db/db.c:141-147 | for one page the list is a stack: the last entry is taken, the others stay and the count goes down by one |
| Allocator.LastReleasedFirst | src/db/db.c:224-238 | so the page released last is granted next, from a list with room, and list and count are then what they were before the release |
| Allocator.FirstRunTaken | src/db/db.c:149-192 | for more pages the run starts at the first listed page whose successors are all listed: no earlier entry starts such a run |
| Allocator.GrowsOtherwise | src/db/db.c:204-222 | when fewer pages are counted free than needed, or no listed page starts a listed run, the file grows at its end and the list stays |
| Allocator.RefillsWhenEmpty | src/db/db.c:194-203 | an empty list is refilled and written first when enough pages are counted free, and then serves the call as any list does |
| Allocator.RefilledLowest | src/db/maint.c:27-48 | the refilled list has the lowest empty pages in ascending order: all of them, or 127 |
| Allocator.TakeSound | src/db/db.c:138-192 | a run taken off the list was empty and owned by no record, and the list keeps the other entries in order |
| Allocator.RemoveRunList | src/db/db.c:171-186 | removal by shifting removes exactly the run's entries and keeps the order |
| Allocator.RefilledSound | src/db/maint.c:27-50 | the refilled list is distinct empty pages, its count exact modulo 2^16, and it is empty only if no page is |
| Allocator.ReleaseSound | src/db/db.c:224-238 | releasing an emptied run keeps the list sound and counts all of its pages |
| Allocator.AllocateWrites | src/db/db.c:121-222 | on disk an allocation grows the file by empty pages and replaces the free list |
| Scans.ScanKeeps | src/db/maint.c:127-138 | over pages that may hold anything a rebuilt index gives for each id its active pages in ascending order, all of them unless the leaf has no room for another value of that id |
| Scans.ScanFirst | src/db/maint.c:127-138 | so the first page of an id is its lowest active page, if there was room for it |
| Scans.StartIsLowest | src/db/maint.c:127-138 | no active page of an id is lower than the one the scan gives for it |
| Scans.KeyWhenRoom | src/btree/btree.c:392-441 | an id becomes a key exactly when fourteen bytes are left where its lowest page is scanned |
| Scans.AllTaken | src/btree/btree.c:392-441 | thirty-six active pages always have room, whether or not they have one id |
| Scans.StartsScan | src/db/maint.c:127-138 | when no two active pages have one id the index has exactly the first thirty-six of them |
| Upkeep.RebuildReads | src/db/maint.c:98-139 | after RebuildIndex over pages that may hold anything a lookup finds the record at the start that the scan gives for its id, if its run there is whole |
| Upkeep.RecoveryReads | src/db/journal.c:122-237 | the same after recovery with any journal; the recovered database is anchored exactly when there is space behind every start |
| Upkeep.RebuildSwitches | src/db/maint.c:127-138 | an addition under an id that is a key leaves two active pages with that id; rebuilding the index changes what the id reads, to the new record, exactly when that lies lower, and no other lookup |
| Upkeep.RebuildAfterFailure | src/db/maint.c:127-138 | after an AddRecord that failed for want of index room, RebuildIndex keeps the first 36 of the 37 active pages: the failed record appears and the last record of the file goes, unless they are the same |
| Upkeep.RebuildInterrupted | src/db/maint.c:110-139 | a crash after any write of RebuildIndex outside a transaction, over any pages: nothing changes before the truncation, the database no longer opens right after it, and from then on lookups are those of a scan of the pages that it has come to; the number of writes is four plus the pages that find room |
| Upkeep.CompactReads | src/db/maint.c:200-245 | CompactDatabase over pages that may hold anything: each id keeps the start that a scan finds for it, and reads as before when there is space behind it, unless the copy loop passes its start over, when it is not found |
| Upkeep.CompactRecovered | src/db/maint.c:200-245 | for a recovered database with one page per id: every lookup is as before, except that records whose start is passed over are not found |
| Upkeep.CompactLosesCovered | src/db/maint.c:200-235 | so compaction loses every record whose start lies in the stretch of an earlier start that it takes, whole or not |
| Upkeep.CompactCompletes | src/db/maint.c:211-219 | a record that the end of the file cuts off is not found before a compaction and found after it, with zeros in the place of its missing pages |
| Upkeep.CompactInterrupted | src/db/maint.c:236-266 | a crash after any write of CompactDatabase outside a transaction: between the removal of the data file and the renaming of the copy there is no data file and the database does not open; then exactly the records that have not moved are found; right after the truncation of the index it does not open either; and then the records are found that the scan has come to, in the end all |
| Upkeep.AddValidates | src/db/maint.c:269-323 | a database that validates does so after an addition exactly when the addition succeeds and its id was not a key |
| Maintenance.MaintenanceKeeps | src/db/maint.c:15-53 | UpdateFreePages changes no record and keeps the invariant, and so does RebuildIndex when no page is lost; otherwise see Upkeep.RebuildReads |
| Maintenance.RebuiltIndex | src/db/maint.c:122-138 | when no page is lost the rebuilt index maps exactly the live ids to their first pages |
| Maintenance.ScannedStarts | src/db/maint.c:127-138 | a directory that gives exactly the active pages is what the rebuilt index holds |
| Maintenance.ActiveIsStart | src/db/maint.c:127-136 | an active page is the start of the run of the record whose id it carries |
| Maintenance.RebuildEffect | src/db/maint.c:110-139 | the writes of RebuildIndex leave the scanned entries in a fresh index file |
| Compaction.CompactKeeps | src/db/maint.c:160-267 | CompactDatabase keeps every record and the invariant, leaves exactly 2 + records * pages pages and an empty free list |
| Compaction.CompactPositions | src/db/maint.c:196-235 | each record moves to the pages of the records before it: the page order is kept |
| Compaction.CompactKeepsInUse | src/db/maint.c:200-235 | the copy loop, which skips by runs, copies exactly the pages in use, in order |
| Compaction.FullValidates | src/db/maint.c:269-323 | every database that has lost no page validates |
| Compaction.ValidMeans | src/db/maint.c:269-323 | whenever validation succeeds the active pages have distinct ids and are as many as the header counts |
| Leaf.LeafRoundTrip | src/btree/btree.c:104-191 | deserializing undoes serializing on every leaf that fits |
| Formats.IndexHeaderLayout | src/btree/btree.c:61-82 | the byte offset of each field of an index header page, with zeros behind |
| Formats.LeafLayout | src/btree/btree.c:104-140 | the byte offsets of the head of a leaf page, and the zeros behind its entries |
| Formats.EntryLayout | src/btree/btree.c:104-140 | the byte offsets of key, number of values, each value and overflow page of the i-th entry, which starts where the one before it ends |
| Leaf.DecodedFits | src/btree/btree.c:142-191 | whatever a page decodes to fits a page |
| Leaf.SearchFinds | src/btree/btree.c:360-374 | on sorted keys the search that stops at the first larger key finds every key that is there |
| Leaf.FoundIsLookup | src/btree/btree.c:444-480 | a search is a lookup in the map of keys to values |
| Leaf.InsertRefines | src/btree/btree.c:376-442 | an insertion adds the value at the end of its key's values, once, and keeps keys sorted and values distinct |
| Leaf.InsertSucceeds | src/btree/btree.c:392-441 | an insertion succeeds exactly when the pair is present or the key has fewer than 60 values and the enlarged leaf fits 512 bytes |
| Leaf.DeleteRefines | src/btree/btree.c:482-511 | deleting a key succeeds exactly when it is present and removes it alone |
| Leaf.ValueDeleteRefines | src/btree/btree.c:513-565 | deleting a value succeeds exactly when it is present and removes it alone, with its key when it was the last |
| Leaf.SizeAtLeast | src/btree/btree.c:104-140 | a leaf that fits has at most 36 keys |
| IndexRuns.ReachableLeaf | src/btree/btree.c:376-565 | after any sequence of insertions and deletions from a new index, failed ones included, keys are sorted and distinct, values distinct and nonempty, at most 36 keys, no overflow page, and the leaf is the map that the successful changes make |
| IndexRuns.ChangeRefines | src/btree/btree.c:376-565 | each change succeeds exactly as the map and the bytes in use say, and does to the map what it says |
| Directories.Enter | src/btree/btree.c:376-442 | in the primary index a new id is taken exactly while fewer than 36 are there |
| Directories.Reenter | src/btree/btree.c:392-408 | a second page entered for an id comes after the first |
| BTree.SerializeLeaf | src/btree/btree.c:104-140 | writes the page of the leaf, or fails exactly when it does not fit |
| BTree.DeserializeLeaf | src/btree/btree.c:142-191 | reads the leaf a page holds, or fails exactly on a page that holds none |
| BTree.BTree.CreateBTree | src/btree/btree.c:226-274 | leaves an empty leaf, by a truncation and two page writes |
| BTree.BTree.OpenBTree | src/btree/btree.c:276-308 | succeeds exactly on a file with a valid header page |
| BTree.BTree.CloseBTree | src/btree/btree.c:310-325 | changes nothing in the file |
| BTree.BTree.FindEntryIndex | src/btree/btree.c:360-374 | the loop is the search specified by Search |
| BTree.BTree.Insert | src/btree/btree.c:376-442 | through the serialized page, the entries become those of Inserted, and a failed insertion leaves the file's bytes as they were |
| BTree.BTree.Find | src/btree/btree.c:444-480 | copies the first values of the key, at most as many as asked for |
| BTree.BTree.Delete | src/btree/btree.c:482-511 | removes the key with all its values through the serialized page |
| BTree.BTree.DeleteValue | src/btree/btree.c:513-565 | removes one value through the serialized page, and the key with its last value |
| Database.Database.AllocatePages | src/db/db.c:121-222 | the three strategies with their nested searches and shifts grant what Allocate specifies, with one retry at most (by its measure); which page that is say Allocator.LastListedTaken, Allocator.FirstRunTaken, Allocator.RefillsWhenEmpty and Allocator.GrowsOtherwise |
| Database.Database.ReleasePages | src/db/db.c:224-238 | nothing for no page; otherwise the count grows by the run modulo 2^16, the list by its first page when there is room, and the list is written |
| Database.Database.WritePageToDisk | src/db/db.c:56-76 | one page of the file changes to the bytes of the page, the file growing by zero blocks when needed |
| Database.Database.ReadPageFromDisk | src/db/db.c:78-98 | reads a page, and fails exactly beyond the file |
| Database.Database.WriteJournalEntry | src/db/journal.c:98-120 | appends the 518 bytes of the entry with its checksum when a journal is open |
| Database.Database.CreateDatabase | src/db/db.c:242-299 | truncates the data file, writes its two pages and makes the index file, in this order; all bytes of the two files are given, and every field of the header and the free list; fails on record size 0 and then writes nothing |
| Database.Database.OpenDatabase | src/db/db.c:301-362 | succeeds exactly when the data file has two pages and begins with VDB and a zero byte, and the index file has a page and begins with BTRE; recovers when a transaction was pending |
| Database.Database.CloseDatabase | src/db/db.c:364-390 | makes exactly the three closing writes |
| Database.Database.AddRecord | src/db/record.c:14-103 | makes exactly the writes of Add in order, also after the recovery of a torn record; under the invariant the records gain exactly the new one, or the call fails with all records as they were exactly when 36 are there |
| Database.Database.FindRecordByID | src/db/record.c:105-160 | wherever the index sends it, fills the buffer with exactly the record and touches nothing behind it; succeeds exactly when the index and every block agree; with an index that names data pages only the answer is that of the records |
| Database.Database.UpdateRecord | src/db/record.c:230-304 | makes exactly the writes of Update in order, also after the recovery of a torn record; in a coherent database that record alone changes |
| Database.Database.DeleteRecord | src/db/record.c:306-361 | makes exactly the writes of Delete in order, also after the recovery of a torn record; in a coherent database that record alone goes |
| Database.Database.FindRecordByString | src/db/record.c:162-228 | from the header, the records and the files of the secondary indexes: through the first index with the name of the field, but for the case of letters, gives the first live record among the first sixteen ids entered under the key of the value, and fails exactly when there is none or no such index; no live id among at most sixteen is missed |
| Database.Database.UpdateFreePages | src/db/maint.c:15-53 | refills the list from the pages of the file |
| Database.Database.RebuildPrimaryIndex | src/db/maint.c:98-139 | makes exactly the writes of the rebuild, in order, as the index object logs them, failed insertions ignored |
| Database.Database.CompactDatabase | src/db/maint.c:160-267 | makes exactly the writes of Compact, the removal of the data file and the renaming of the copy among them; when no page was lost the records stay, the file has 2 + pages * records pages and no free page |
| Database.Database.ValidateDatabase | src/db/maint.c:269-323 | returns whether header, index, active pages and count agree |
| Database.Database.BeginTransaction | src/db/journal.c:15-37 | a fresh journal, then the pending flag on disk |
| Database.Database.CommitTransaction | src/db/journal.c:39-67 | the flag off on disk, then the journal cleared |
| Database.Database.RollbackTransaction | src/db/journal.c:69-96 | does what a commit does: nothing is undone |
| Database.Database.ReplayJournal | src/db/journal.c:122-237 | makes exactly the writes of Replay: intact entries in order, rebuilt index, count, refilled list, flag, journal |
| DbCodec.PageRoundTrip | src/db/dbutil.c:163-179 | pages and 512-byte blocks correspond one to one |
| DbCodec.HeaderRoundTrip | src/db/dbutil.c:69-118 | a header read back is the header written |
| DbCodec.FreeListRoundTrip | src/db/dbutil.c:128-152 | a free list read back is the free list written |
| DbCodec.JournalRoundTrip | src/db/dbutil.c:191-209 | journal entries and 518-byte records correspond one to one |
| Formats.HeaderLayout | src/db/dbutil.c:49-93 | the byte offset of each field of the header page |
| Formats.IndexLayout | src/db/dbutil.c:84-92 | the byte offsets of the i-th index in the header page |
| Formats.FreeListLayout | src/db/dbutil.c:128-139 | the byte offsets of count, length and each page number in the free-list page |
| Formats.PageLayout | src/db/dbutil.c:156-170 | the byte offsets of a data page |
| Formats.RecordPageLayout | src/db/record.c:69-90 | each byte of the i-th page of a record: id, status 1 or 2, and the bytes of the record from 506 times i on, filled up with zeros |
| Formats.EmptyPageLayout | src/db/record.c:341-348 | an emptied page is 512 zeros |
| Formats.StoredBeyond | src/db/db.c:56-76 | a page written behind the end of the file leaves pages of zeros between |
| Formats.JournalLayout | src/db/dbutil.c:183-199 | the byte offsets of a journal entry |
| Formats.UpdateJournals | src/db/record.c:253-301 | the writes of an update in order: in a transaction an entry for each page, operation 1 with page number, id, status, data and checksum, and then the pages |
| Formats.AddJournals | src/db/record.c:36-102 | the writes of an addition in order: those of the allocation, in a transaction an entry of operation 3 for each page under the new id, the pages, the index and the header; neither of the two last when the index has no room |
| Formats.DeleteJournals | src/db/record.c:327-358 | the writes of a deletion in order: in a transaction an entry of operation 2 for each page, the emptied pages, the index, the free list and the header |
| Formats.DeleteLists | src/db/db.c:224-238 | after a deletion the list of free pages ends with the first page of the record, if there was room, and the count has all its pages |
| Formats.RecoveryEnds | src/db/journal.c:219-234 | recovery ends with the free list, the header without the pending flag, and only then the emptied journal |
| Formats.BracketWrites | src/db/journal.c:15-67 | the writes of begin, commit and close in order |
| Formats.CopyBeginsEmpty | src/db/maint.c:188-196 | the free-list page of the copied file is zeros |
| Formats.CreatedBytes | src/db/db.c:255-290 | every byte of a new data file |
| Formats.CreatedIndexBytes | src/btree/btree.c:239-271 | every byte of a new index file |
| DbCodec.DamageDetected | src/db/dbutil.c:264-278 | damage inside sixteen consecutive bits of the covered bytes breaks the checksum |
| DbCodec.SerializeHeader | src/db/dbutil.c:69-93 | fills the buffer with the header's bytes |
| DbCodec.SerializeFreeList | src/db/dbutil.c:128-139 | fills the buffer with the free list's bytes |
| DbCodec.SerializePage | src/db/dbutil.c:163-170 | fills the buffer with the page's bytes |
| DbCodec.SerializeJournalEntry | src/db/dbutil.c:191-199 | fills the buffer with the entry's bytes |
| DbCodec.ComputeJournalChecksum | src/db/dbutil.c:264-278 | the table-driven CRC of the covered bytes is their checksum |
| Words.LittleEndianInverse32 | src/db/dbutil.c:30-47 | words and their four little-endian bytes correspond one to one, negative words included |
| Words.LittleEndianInverse16 | src/db/dbutil.c:19-28 | the same for 16-bit words |
| Words.BytesOfWord | src/db/dbutil.c:19-47 | byte k of a word is the word divided by 256^k, modulo 256, also for negative words |
| Crc.ChecksumIsRemainder | src/crc/crc.c:40-55 | the CRC is the remainder of the bit-by-bit division by 0x1021 from 0xFFFF, for every byte sequence |
| CrcExample.CheckValue | src/crc/crc.c:40-55 | the checksum of the digits 1 to 9 is 0x29B1, the check value of CRC-16/CCITT |
| Crc.ChecksumDetectsBurst | src/crc/crc.c:40-55 | equal-length inputs that differ only inside sixteen consecutive bits have different CRCs |
| Crc.ByteStepBijective | src/crc/crc.c:50-53 | folding in a byte is a bijection of the 16-bit state |
| Crc.TableStep | src/crc/crc.c:50-53 | one table step is eight bit steps |
| Crc.CrcTable.BuildTable | src/crc/crc.c:20-38 | the table holds the eight-step remainders |
| Crc.CrcTable.Crc16 | src/crc/crc.c:40-55 | the table-driven CRC is the bit-by-bit one |
| CrcMath.RegisterIsRemainder | src/crc/crc.c:26-34 | the shift register computes the remainder of long division |
| CrcMath.BurstDetected | src/crc/crc.c:40-55 | the register tells apart bit strings that differ inside a window of sixteen |
| Sha1.Sha1Context.constructor | src/crc/sha1.c:90-99 | a fresh context has been fed nothing |
| Sha1.Sha1Context.ProcessBlock | src/crc/sha1.c:37-88 | one block is compressed as section 6.1.2 of FIPS 180-4 defines |
| Sha1.Sha1Context.Sha1Update | src/crc/sha1.c:101-142 | appends its bytes to the message fed, however the message is cut |
| Sha1.Sha1Context.Padding | src/crc/sha1.c:152-165 | the padding is 1 to 64 bytes and with the length field completes the message as section 5.1.1 defines |
| Sha1.Sha1Context.Sha1Final | src/crc/sha1.c:144-173 | gives the FIPS 180-4 digest of everything fed |
| Sha1.Sha1Hash | src/crc/sha1.c:175-182 | one-shot hashing gives the digest |
| Sha1.HashPieces | src/crc/sha1.c:101-173 | any way of cutting a message gives the digest of the whole |
| Sha1.CountAdds | src/crc/sha1.c:114-120 | the two count words with their carry are eight times the bytes fed, modulo 2^64 |
| Sha1.BufferUse | src/crc/sha1.c:111-140 | the buffer fill is the bytes fed modulo 64 |
| Sha1Standard.ChooseByOr | src/crc/sha1.c:61-63 | the or-form of the choice function equals the standard's exclusive-or form |
| Sha1Standard.MajorityByOr | src/crc/sha1.c:67-69 | the or-form of the majority function equals the standard's exclusive-or form |
| Sha1Standard.BitOfRotated | src/crc/sha1.c:16 | bit i of a word rotated left by n is bit i - n of the word, modulo 32 |
| Sha1Standard.ConstantIsRoot | src/crc/sha1.c:61-73 | the four round constants are 2^30 times the square roots of 2, 3, 5 and 10, rounded down |
| MachineWords.RotateIsMachine | src/crc/sha1.c:16 | the rotations by 1, 5 and 30 are the shifts of 32-bit words in the source, for every word |
| MachineWords.WordIsMachine | src/crc/sha1.c:48 | the logical operations on numbers are those of 32-bit words |
| MachineWords.ComplementIsMachine | src/crc/sha1.c:62 | and so is the complement |
| HashExample.DigestOfAbc | src/crc/sha1.c:37-182 | the digest of "abc" is that of FIPS 180-4, A9993E36 4706816A BA3E2571 7850C26C 9CD0D89D, through every word of the schedule and all eighty rounds |
| Strings.StrCompareI | src/util/string.c:65-88 | zero exactly for strings that are equal but for the case of letters, negative exactly when the lower-case form of the first comes before in lexicographic order |
| Strings.LowerLetters | src/util/string.c:19-25 | each of the 26 upper-case letters becomes its lower-case one, and every other character stays |
| Strings.LowerEqual | src/util/string.c:65-88 | two strings have one lower-case form exactly when they have one length and each two characters are the same or the two cases of one letter |
| Strings.StrToLower | src/util/string.c:27-44 | as much as fits, with each upper-case letter replaced by its lower-case one and nothing else, terminated |
| Strings.StringKey | src/btree/btree.c:569-579 | the CRC-16 of the lower-case form of the first 255 characters |
| Strings.KeyIsChecksum | src/btree/btree.c:569-579 | the key is the CRC-16 of the first 255 characters with the upper-case letters replaced by lower-case ones |
| Strings.EqualStringsEqualKeys | src/btree/btree.c:569-579 | strings of any length that compare equal have equal keys |
| Lookup.SearchesAgree | src/db/record.c:219-225 | where the index names data pages only, the search over the blocks of the file is the search over the records |
| Lookup.IndexListed | src/db/record.c:186-199 | the k-th index is the one searched when its name equals that of the field but for case and no earlier one does, and none is searched exactly when no listed name does |
| Lookup.KeyOfNumber | src/db/dbutil.c:226-227 | the key of a value that is not a string is the number in its first four bytes |
| Lookup.SearchAnswers | src/db/record.c:209-225 | reading candidate by candidate gives the first of the first sixteen ids with a record, and fails exactly when none of them has one |
| Lookup.NoFalseNegatives | src/db/record.c:162-228 | whatever a search gives in this way: a live id entered in the field's index under a string's key, among at most sixteen, is not missed when any string that compares equal is searched; some live record entered under that key is found |
| Lookup.FirstLive | src/db/record.c:219-225 | a search gives the first candidate that is live, and fails exactly when none is |

## Left out

- I/O failures, `fseek`/`ftell` errors, null arguments and closed file handles: the branches that only report them are not modelled; files behave as the sequence of their writes.
- File names and the clock: files are fields of the class, and the time of a compaction is an argument.
- `AddIndex` and `RebuildIndex` for secondary indexes: they create an empty file and, for `AddIndex`, a header entry.
- Overflow pages, internal nodes and node splitting of the B-Tree: documented, not implemented.
- Rollback as undo, collision-free string lookup and immediate reuse of freed multi-page runs: the code does not provide them.
- `Sha1HashString`, `Sha1ToHex`, `Crc16String`, `StrNCopy` and `BuildFilename`: one-line wrappers and string plumbing.
- `examples/useradm` and the test programs.
- Platforms with 16-bit `int`: integer promotions are those of a 32-bit `int`.
- Page numbers, record ids and counts near the end of 32 bits: the operations require that a page number, an id and a count are left (`Engine.Room`, `PlainMap.Allowed`), since the code would overflow a signed integer there.
- Files of more than 2^31 pages, for the same reason.
- The values of an index entry are a sequence inside an array element, not an array inside a structure; entries themselves are shifted in place.
- The read side of the codecs (`Deserialize*` of header, free list, page and journal entry) is modelled as functions, not as methods that fill a structure.
- The journal checksum is computed once per entry; the code computes it twice with the same result.
- `CopyPiece`, `WriteRecord` and `JournalRecord` stand for loops that `AddRecord` and `UpdateRecord` each contain.
- Between the writes of one call the trace says what is on disk; the file contents of the class are related to it at the end of each call.
- Transactions.CrashAtomicity: for records of several pages it speaks of journals that end at an operation; `AnyCrash.CrashReads` has no such condition.
- Restarts.RecoverySurvivesCrashes: it excludes a truncated index file, from which the code does not recover.
- PlainMap.WholeRun: it requires index room for each addition (36 records) and that a transaction in which the file was compacted is committed before the database is closed, since opening would replay the journal over other pages (`Salvage.StrandedLoses`).
- WholeRuns.WholeRunWithCrashes: after a crash that is not at the end of a transaction's operation, or that leaves the next id in use, its runs go on after the repair; lookups before the repair are those of `AnyCrash.TransactionReads` and of `Outside`, and what operations do then is `Anchors.AddReads`, `Anchors.UpdateReads` and `Anchors.DeleteReads`.
- Database.Database.AddRecord: it requires an index and a free list that name pages of the file (`Engine.Operable`), as every run and every recovery leaves them; for others the code would read and write beyond the file or before it.
- Database.Database.CompactDatabase: it requires that the copy fits 32-bit page numbers.
- Salvage.AnyPoint: a crash in a compaction inside a transaction, or in an operation after one in the same transaction, is not covered, for the same reason as in PlainMap.WholeRun.
