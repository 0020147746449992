/** Opening a database, with recovery when a transaction was pending, as the sequence of its writes. */
module Recovery {
  import opened Words
  import opened DbTypes
  import opened Pages
  import opened Disk
  import opened Directories
  import opened Engine
  import opened Maintenance
  import opened Journal
  import opened Scans
  import Allocator
  import BTree
  import Leaf

  // ---- Transactions ----

  /** BeginTransaction: a fresh journal, then the pending flag. */
  function Begin(mem: Memory): Outcome {
    var h := mem.header.(journalPending := true);
    Outcome(mem.(header := h, journalOpen := true), [ClearJournal] + [PutHeader(h)], true)
  }

  /** CommitTransaction: the flag goes before the journal. */
  function Commit(mem: Memory): Outcome {
    var h := mem.header.(journalPending := false);
    Outcome(mem.(header := h, journalOpen := false), [PutHeader(h)] + [ClearJournal], true)
  }

  // ---- ReplayJournal ----

  /** The page writes of replaying entries. */
  function RedoWrites(es: seq<DBJournalEntry>, pages: Store): seq<Write>
    requires |Redo(es, pages)| <= Allocator.MAX_PAGES
  {
    if es == [] then []
    else
      var init, e := es[..|es| - 1], es[|es| - 1];
      match RedoWrite(Redo(init, pages), e)
      case None => RedoWrites(init, pages)
      case Some((slot, p)) => RedoWrites(init, pages) + [PutPage(slot + 2, p)]
  }

  lemma {:induction false} RedoWritesEffect(d: Disk, es: seq<DBJournalEntry>)
    requires |Redo(es, d.pages)| <= Allocator.MAX_PAGES
    ensures ApplyAll(d, RedoWrites(es, d.pages)) == d.(pages := Redo(es, d.pages))
  {
    hide RedoWrite, StorePage;
    if es != [] {
      var init, e := es[..|es| - 1], es[|es| - 1];
      RedoWritesEffect(d, init);
      match RedoWrite(Redo(init, d.pages), e) {
        case None =>
        case Some((slot, p)) => ApplyLast(d, RedoWrites(init, d.pages), PutPage(slot + 2, p));
      }
    }
  }

  predicate Replayable(d: Disk) {
    d.journal.Some? && |Redo(d.journal.value, d.pages)| <= Allocator.MAX_PAGES
  }

  function Redone(d: Disk): Store
    requires d.journal.Some?
  {
    Redo(d.journal.value, d.pages)
  }

  /** The number of active pages as the 32-bit count of the header. */
  function ActiveCount(pages: Store): int32
    requires |pages| <= Allocator.MAX_PAGES
  {
    CountAtMost(pages, PS_ACTIVE);
    Count(pages, PS_ACTIVE)
  }

  lemma {:induction false} CountAtMost(pages: Store, status: byte)
    ensures Count(pages, status) <= |pages|
  {
    if pages != [] {
      CountAtMost(pages[..|pages| - 1], status);
    }
  }

  function RecoveredHeader(d: Disk): DBHeader
    requires Replayable(d)
  {
    d.header.(recordCount := ActiveCount(Redone(d)), journalPending := false)
  }

  /** ReplayJournal with a journal file: replay, rebuild the index, count, refill the free list, clear the flag and
      finally the journal. */
  function Replay(d: Disk): Outcome
    requires Replayable(d)
  {
    var pages := Redone(d);
    var f, h := Allocator.Refilled(pages), RecoveredHeader(d);
    Outcome(Memory(h, f, false),
            RedoWrites(d.journal.value, d.pages) + RebuildWrites(pages) + [PutFree(f)] + [PutHeader(h)]
              + [ClearJournal], true)
  }

  lemma ReplayEffect(d: Disk)
    requires Replayable(d)
    ensures ApplyAll(d, Replay(d).writes)
         == Disk(d.leading, RecoveredHeader(d), Allocator.Refilled(Redone(d)), Redone(d), Some([]),
                 BTree.Ready(LeafOf(Scanned(Redone(d), |Redone(d)|))))
  {
    hide ApplyAll, RedoWrites, RebuildWrites, Redone, RecoveredHeader, Allocator.Refilled, Scanned, LeafOf;
    RedoneIs(d);
    var pages := Redone(d);
    var f, h := Allocator.Refilled(pages), RecoveredHeader(d);
    var a := RedoWrites(d.journal.value, d.pages);
    RedoWritesEffect(d, d.journal.value);
    ApplyConcat(d, a, RebuildWrites(pages));
    RebuildEffect(d.(pages := pages));
    ApplyLast(d, a + RebuildWrites(pages), PutFree(f));
    ApplyLast(d, a + RebuildWrites(pages) + [PutFree(f)], PutHeader(h));
    ApplyLast(d, a + RebuildWrites(pages) + [PutFree(f)] + [PutHeader(h)], ClearJournal);
  }

  lemma RedoneIs(d: Disk)
    requires d.journal.Some?
    ensures Redone(d) == Redo(d.journal.value, d.pages)
  {
  }

  // ---- CreateDatabase, OpenDatabase and CloseDatabase ----

  /** The files that CreateDatabase makes. */
  function Created(size: uint16, journal: Option<seq<DBJournalEntry>>): Disk {
    var h := Header(DB_SIGNATURE, DB_VERSION, DB_PAGE_SIZE, size, 0, 1, 0, false, 0, Zeros(8),
      seq(15, _ => IndexInfo(Zeros(30), 0, 0)));
    Disk(2, h, FreeList(0, 0, seq(127, _ => 0)), [], journal, BTree.Ready(BTree.EmptyLeaf()))
  }

  /** The data file of an empty database: the old one truncated, then the header page and the free-list page. */
  function CreateDataWrites(size: uint16): (ws: seq<Write>)
    ensures |ws| == 3
  {
    [RemoveFile] + [BeginFile(Created(size, None).header)] + [ListFile(Created(size, None).free)]
  }

  /** CreateDatabase: the data file, and then the index file truncated, its header page and an empty leaf. */
  function CreateWrites(size: uint16): (ws: seq<Write>)
    ensures |ws| == 6
  {
    CreateDataWrites(size) + CreateIndexWrites()
  }

  function CreateIndexWrites(): seq<Write> {
    [PutIndex(BTree.Truncated), PutIndex(BTree.HeaderWritten), PutIndex(BTree.LeafWritten(BTree.EmptyLeaf()))]
  }

  /** The disk after each of the writes of a creation. */
  lemma CreateSteps(d: Disk, size: uint16)
    ensures var ws, c := CreateWrites(size), Created(size, d.journal);
      && ApplyAll(d, ws[..0]) == d
      && ApplyAll(d, ws[..1]) == d.(leading := 0, pages := [])
      && ApplyAll(d, ws[..2]) == d.(leading := 1, header := c.header, pages := [])
      && ApplyAll(d, ws[..3]) == c.(index := d.index)
      && ApplyAll(d, ws[..4]) == c.(index := BTree.NoHeader)
      && ApplyAll(d, ws[..5]) == c.(index := BTree.NoLeaf)
      && ApplyAll(d, ws[..6]) == c
  {
    hide *;
    var c := Created(size, d.journal);
    CreatedIs(size, d.journal);
    CreateParts(size);
    ApplyNone(d);
    CreateDataSteps(d, c.header, c.free);
    CreateIndexSteps(d, [RemoveFile] + [BeginFile(c.header)] + [ListFile(c.free)]);
  }

  lemma CreateDataSteps(d: Disk, h: DBHeader, f: DBFreeList)
    ensures ApplyAll(d, [RemoveFile]) == d.(leading := 0, pages := [])
    ensures ApplyAll(d, [RemoveFile] + [BeginFile(h)]) == d.(leading := 1, header := h, pages := [])
    ensures ApplyAll(d, [RemoveFile] + [BeginFile(h)] + [ListFile(f)])
         == d.(leading := 2, header := h, free := f, pages := [])
  {
    hide ApplyAll;
    ApplyOne(d, RemoveFile);
    ApplyLast(d, [RemoveFile], BeginFile(h));
    ApplyLast(d, [RemoveFile] + [BeginFile(h)], ListFile(f));
  }

  lemma CreateIndexSteps(d: Disk, a: seq<Write>)
    ensures var e, t, h := ApplyAll(d, a), PutIndex(BTree.Truncated), PutIndex(BTree.HeaderWritten);
      && ApplyAll(d, a + [t]) == e.(index := BTree.NoHeader)
      && ApplyAll(d, a + [t] + [h]) == e.(index := BTree.NoLeaf)
      && ApplyAll(d, a + [t] + [h] + [PutIndex(BTree.LeafWritten(BTree.EmptyLeaf()))])
         == e.(index := BTree.Ready(BTree.EmptyLeaf()))
  {
    hide ApplyAll, BTree.EmptyLeaf;
    var t, h := PutIndex(BTree.Truncated), PutIndex(BTree.HeaderWritten);
    ApplyLast(d, a, t);
    ApplyLast(d, a + [t], h);
    ApplyLast(d, a + [t] + [h], PutIndex(BTree.LeafWritten(BTree.EmptyLeaf())));
  }

  lemma CreateParts(size: uint16)
    ensures var ws, c := CreateWrites(size), Created(size, None);
      var a := [RemoveFile] + [BeginFile(c.header)];
      var b, t, h := a + [ListFile(c.free)], PutIndex(BTree.Truncated), PutIndex(BTree.HeaderWritten);
      && ws[..0] == [] && ws[..1] == [RemoveFile] && ws[..2] == a && ws[..3] == b && ws[..4] == b + [t]
      && ws[..5] == b + [t] + [h] && ws[..6] == b + [t] + [h] + [PutIndex(BTree.LeafWritten(BTree.EmptyLeaf()))]
  {
    hide Created, BTree.EmptyLeaf;
  }

  lemma CreatedIs(size: uint16, journal: Option<seq<DBJournalEntry>>)
    ensures var c := Created(size, journal);
      && c.leading == 2 && c.pages == [] && c.journal == journal && c.index == BTree.Ready(BTree.EmptyLeaf())
      && c.header == Created(size, None).header && c.free == Created(size, None).free
      && c.header.signature == DB_SIGNATURE && !c.header.journalPending
  {
    hide BTree.EmptyLeaf;
  }

  /** A creation cut short after `t` writes: once the data file is truncated nothing opens before its second page is
      there; then the new file opens with the old index, if there was one; after the truncation of the index nothing
      opens again before its header page is there. Whatever opens holds no record. */
  lemma CreateInterrupted(d: Disk, size: uint16, t: nat)
    requires t <= |CreateWrites(size)|
    ensures var e := ApplyAll(d, CreateWrites(size)[..t]);
      && (t == 0 ==> e == d)
      && (t > 0 && e.leading == 2 ==> !e.header.journalPending)
      && (t in {1, 2, 4} ==> Open(e).None?)
      && (t == 3 ==> (Open(e).Some? <==> d.index != BTree.NoHeader))
      && (t > 4 ==> Open(e).Some?)
      && (t > 0 && Open(e).Some? ==> forall id :: FindRecord(Reopened(e), id) == None)
  {
    hide ApplyAll, BTree.EmptyLeaf, CreateWrites, BTree.FirstValue;
    CreateSteps(d, size);
    var e := ApplyAll(d, CreateWrites(size)[..t]);
    ApplyNone(e);
  }

  /** Whatever was on disk before, creation leaves the files of an empty database. */
  lemma CreateEffect(d: Disk, size: uint16)
    ensures ApplyAll(d, CreateWrites(size)) == Created(size, d.journal)
  {
    hide ApplyAll, BTree.EmptyLeaf;
    CreateSteps(d, size);
    assert CreateWrites(size)[..6] == CreateWrites(size);
  }

  /** CloseDatabase: the header, the free list and the header page of the index are written back. */
  function CloseWrites(mem: Memory): seq<Write> {
    [PutHeader(mem.header)] + [PutFree(mem.free)] + [PutIndex(BTree.HeaderWritten)]
  }

  function Closed(s: State): Disk {
    ApplyAll(s.disk, CloseWrites(s.mem))
  }

  lemma CloseEffect(s: State)
    requires s.disk.index.Ready?
    ensures Closed(s) == s.disk.(header := s.mem.header, free := s.mem.free)
  {
    hide ApplyAll;
    ApplyOne(s.disk, PutHeader(s.mem.header));
    ApplyLast(s.disk, [PutHeader(s.mem.header)], PutFree(s.mem.free));
    ApplyLast(s.disk, [PutHeader(s.mem.header)] + [PutFree(s.mem.free)], PutIndex(BTree.HeaderWritten));
  }

  /** The journal, if it is to be replayed, leaves page numbers that fit 32 bits. */
  predicate Openable(d: Disk) {
    d.leading == 2 && d.header.journalPending ==> d.journal.None? || Replayable(d)
  }

  /** OpenDatabase fails without the two leading pages of the data file, a valid signature and a readable index header.
      It replays when a transaction is pending;
      without a journal file it only clears the flag. */
  function Open(d: Disk): (r: Option<Outcome>)
    requires d.leading == 2 && d.header.journalPending ==> d.journal.None? || Replayable(d)
  {
    if d.leading != 2 || d.header.signature != DB_SIGNATURE || d.index.NoHeader? then None
    else if !d.header.journalPending then Some(Outcome(Memory(d.header, d.free, false), [], true))
    else if d.journal.None? then
      var h := d.header.(journalPending := false);
      Some(Outcome(Memory(h, d.free, false), [PutHeader(h)], true))
    else Some(Replay(d))
  }

  /** The state after a successful opening. */
  function Reopened(d: Disk): State
    requires d.leading == 2 && d.header.journalPending ==> d.journal.None? || Replayable(d)
    requires Open(d).Some?
  {
    State(Open(d).value.mem, ApplyAll(d, Open(d).value.writes))
  }

  predicate Opens(d: Disk) {
    Openable(d) && Open(d).Some?
  }

  lemma OpensIs(d: Disk)
    ensures Opens(d) ==> (d.header.journalPending ==> d.journal.None? || Replayable(d)) && Open(d).Some?
    ensures (d.leading == 2 && d.header.journalPending ==> d.journal.None? || Replayable(d)) && Open(d).Some? ==>
      Opens(d)
  {
    hide Replay, Replayable;
  }

  // ---- What recovery rests on ----

  /** Pages from which everything else is rebuilt: records in whole runs, no page lost, and at most as many records as
      the index holds. */
  predicate Rebuildable(pages: Store, n: nat, dir: Directory) {
    && |pages| <= Allocator.MAX_PAGES
    && Runs(pages, n, dir) && Owned(pages, n, dir)
    && Count(pages, PS_ACTIVE) == |dir| <= MAX_RECORDS
    && Count(pages, PS_EMPTY) + n * |dir| == |pages|
  }

  predicate GoodHeader(h: DBHeader) {
    h.signature == DB_SIGNATURE && h.version == DB_VERSION && h.recordSize > 0 && 1 <= h.nextRecordId
  }

  /** An index that a scan of the pages has built: each id starts where the scan starts it. */
  predicate IndexesScan(f: BTree.IndexFile, pages: Store)
    requires |pages| <= Allocator.MAX_PAGES
  {
    && f.Ready? && Leaf.Proper(f.leaf.entries) && Leaf.Fits(f.leaf.entries) && |f.leaf.entries| <= Leaf.MAX_KEYS
    && |f.leaf.entries| <= Count(pages, PS_ACTIVE)
    && forall id :: BTree.FirstValue(f, id)
                    == match ScanStart(pages, id) case None => None case Some(slot) => Some((slot + 2) as int32)
  }

  lemma ScanIndexes(pages: Store, k: nat)
    requires k <= |pages| <= Allocator.MAX_PAGES
    ensures IndexesScan(BTree.Ready(LeafOf(Scanned(pages, k))), pages[..k])
  {
    hide Scanned, ScanStart, BTree.FirstValue, Leaf.Proper, Leaf.Fits, Count;
    var f := BTree.Ready(LeafOf(Scanned(pages, k)));
    forall id
      ensures BTree.FirstValue(f, id)
           == match ScanStart(pages[..k], id) case None => None case Some(slot) => Some((slot + 2) as int32)
    {
      ScanFirst(pages, k, id);
    }
    ScanFirst(pages, k, 0);
    ScanSize(pages, k);
  }

  /** What recovery leaves, whatever the replayed pages hold: the index that a scan of them builds, an exact free list,
      the number of all active pages as the record count, and the next id as it was on disk. */
  lemma RecoveredState(d: Disk)
    requires d.leading == 2 && d.header.journalPending && d.index != BTree.NoHeader
    requires GoodHeader(d.header) && Replayable(d)
    ensures Open(d).Some? && d.journal.Some?
    ensures var r := Reopened(d);
      && HeadersAgree(r.mem, r.disk) && FreeAgrees(r.mem, r.disk) && r.disk.pages == Redone(d)
      && |Redone(d)| <= Allocator.MAX_PAGES && IndexesScan(r.disk.index, Redone(d))
      && r.disk.header == r.mem.header && !r.mem.header.journalPending
      && r.mem.header.nextRecordId == d.header.nextRecordId && r.mem.header.recordSize == d.header.recordSize
      && r.mem.header.recordCount == Count(Redone(d), PS_ACTIVE)
  {
    hide Redo, Count, Allocator.Refilled, Allocator.Sound, Scanned, RedoWrites, RebuildWrites, IndexesScan, LeafOf;
    ReplayEffect(d);
    Allocator.RefilledSound(Redone(d));
    ScanIndexes(Redone(d), |Redone(d)|);
    assert Redone(d)[..|Redone(d)|] == Redone(d);
  }

  /** When no two active pages of the replayed pages have one id the index has the first thirty-six of them. */
  lemma RecoveredStarts(d: Disk, dir: Directory)
    requires d.leading == 2 && d.header.journalPending && d.index != BTree.NoHeader
    requires GoodHeader(d.header) && Replayable(d)
    requires Starts(Redone(d), dir)
    ensures Open(d).Some?
    ensures var r := Reopened(d);
      && HeadersAgree(r.mem, r.disk) && FreeAgrees(r.mem, r.disk) && Indexed(r.disk)
      && Dir(r.disk) == FirstStarts(Redone(d), dir, |Redone(d)|)
      && r.disk.pages == Redone(d) && r.disk.header == r.mem.header && !r.mem.header.journalPending
      && r.mem.header.nextRecordId == d.header.nextRecordId && r.mem.header.recordSize == d.header.recordSize
      && r.mem.header.recordCount == Count(Redone(d), PS_ACTIVE)
      && (Count(Redone(d), PS_ACTIVE) <= MAX_RECORDS ==>
            Dir(r.disk) == dir && |Entries(r.disk)| == |dir| == Count(Redone(d), PS_ACTIVE))
  {
    hide Redo, Count, Starts, Allocator.Refilled, Allocator.Sound, Scanned, DirectoryOf, Singles, RedoWrites,
      RebuildWrites, FirstStarts, IndexesScan;
    RecoveredState(d);
    ReplayEffect(d);
    ScanKeepsFirst(Redone(d), dir, |Redone(d)|);
    if Count(Redone(d), PS_ACTIVE) <= MAX_RECORDS {
      ScannedStarts(Redone(d), dir);
      DirectorySize(Scanned(Redone(d), |Redone(d)|));
    }
  }

  /** When the replayed pages are rebuildable, recovery gives a coherent database with exactly their records. */
  lemma RecoveryRebuilds(d: Disk, dir: Directory)
    requires d.leading == 2 && d.header.journalPending && d.index != BTree.NoHeader
    requires GoodHeader(d.header) && Replayable(d)
    requires Rebuildable(Redone(d), CalculatePagesNeeded(d.header.recordSize), dir)
    ensures Open(d).Some?
    ensures var r := Reopened(d);
      && Coherent(r) && NoneLost(r) && Dir(r.disk) == dir
      && Data(r) == Records(Redone(d), d.header.recordSize, dir)
      && r.mem.header.nextRecordId == d.header.nextRecordId && r.disk.header == r.mem.header
      && !r.mem.header.journalPending && r.disk.pages == Redone(d) && r.mem.header.recordSize == d.header.recordSize
  {
    hide Redo, Runs, Owned, Count, Records, Starts, HeadersAgree, FreeAgrees, Indexed, DirectoryOf, Singles, Open,
      Reopened, Redone;
    RunsStart(Redone(d), CalculatePagesNeeded(d.header.recordSize), dir);
    RecoveredStarts(d, dir);
  }
}
