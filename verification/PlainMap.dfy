/** Whole runs: from the creation of a database on, its operations answer like those of a plain map of records. */
module PlainMap {
  import opened Words
  import opened DbTypes
  import opened Pages
  import opened Disk
  import opened Directories
  import opened Engine
  import opened Refinement
  import opened Maintenance
  import opened Compaction
  import opened Recovery
  import opened Crash
  import opened Transactions
  import Allocator
  import Leaf

  datatype Op =
    | AddOp(data: bytes)
    | UpdateOp(id: int32, data: bytes)
    | DeleteOp(id: int32)
    | FindOp(id: int32)
    | UpdateFreeOp
    | RebuildOp
    | CompactOp(now: int32)
    | BeginOp
    | CommitOp
    | ReopenOp

  datatype Reply = Id(id: int32) | Record(data: bytes) | Done | Failed

  // ---- The plain map ----

  /** Outside a transaction, inside one, or inside one whose journal names pages of the file before a compaction. */
  datatype Mode = Idle | Journaled | Stranded

  /** The record size, the records, the next id, the most data pages that the file can have come to hold, and whether
      there is a transaction. */
  datatype Plain = Plain(size: uint16, records: map<int32, bytes>, next: int32, pages: nat, mode: Mode)

  /** What the operations demand: records of the right size, room for one more record in the index, page numbers for a
      file that grows by its pages and an id after it; and that a transaction in which the file was compacted is
      committed before the database is closed, since opening would replay its journal over other pages. */
  predicate Allowed(p: Plain, op: Op) {
    match op
    case AddOp(data) =>
      && |data| == p.size && |p.records| < MAX_RECORDS && p.next < INT32_MAX
      && p.pages + CalculatePagesNeeded(p.size) <= Allocator.MAX_PAGES
    case UpdateOp(_, data) => |data| == p.size
    case ReopenOp => !p.mode.Stranded?
    case _ => true
  }

  function PlainStep(p: Plain, op: Op): (Plain, Reply)
    requires Allowed(p, op)
  {
    match op
    case AddOp(data) =>
      (p.(records := p.records[p.next := data], next := p.next + 1, pages := p.pages + CalculatePagesNeeded(p.size)),
        Id(p.next))
    case UpdateOp(id, data) => if id in p.records then (p.(records := p.records[id := data]), Done) else (p, Failed)
    case DeleteOp(id) => if id in p.records then (p.(records := p.records - {id}), Done) else (p, Failed)
    case FindOp(id) => (p, if id in p.records then Record(p.records[id]) else Failed)
    case CompactOp(_) =>
      (p.(pages := CalculatePagesNeeded(p.size) * |p.records|, mode := if p.mode.Idle? then Idle else Stranded), Done)
    case BeginOp => (p.(mode := Journaled), Done)
    case CommitOp => (p.(mode := Idle), Done)
    case ReopenOp => (p.(mode := Idle), Done)
    case _ => (p, Done)
  }

  // ---- The database ----

  /** What the database needs to carry the operation out within the bounds of its page numbers and ids. */
  predicate Enabled(s: State, op: Op)
    requires Coherent(s)
  {
    match op
    case AddOp(_) => Room(s)
    case CompactOp(_) => |CompactFrom(s.disk.pages, PagesPer(s), 0)| <= Allocator.MAX_PAGES
    case ReopenOp => Opens(Closed(s))
    case _ => true
  }

  function Step(s: State, op: Op): (State, Reply)
    requires Coherent(s) && Enabled(s, op)
  {
    match op
    case AddOp(data) => var o := Add(s, data); (After(s, o), if o.ok then Id(s.mem.header.nextRecordId) else Failed)
    case UpdateOp(id, data) => Finished(s, Update(s, id, data))
    case DeleteOp(id) => Finished(s, Delete(s, id))
    case FindOp(id) => (s, match FindRecord(s, id) case None => Failed case Some(data) => Record(data))
    case UpdateFreeOp => Finished(s, UpdateFree(s))
    case RebuildOp => Finished(s, Rebuild(s))
    case CompactOp(now) => Finished(s, Compact(s, now))
    case BeginOp => Finished(s, Begin(s.mem))
    case CommitOp => Finished(s, Commit(s.mem))
    case ReopenOp => (Reopened(Closed(s)), Done)
  }

  function Finished(s: State, o: Outcome): (State, Reply) {
    (After(s, o), if o.ok then Done else Failed)
  }

  // ---- One operation ----

  /** The database has lost no page and holds the records of the plain map. Since its creation or the last compaction
      the file has grown by at most one run of pages for each addition. Inside a transaction the journal can be replayed
      and changes nothing. */
  predicate Represents(s: State, p: Plain) {
    && Full(s) && Data(s) == p.records && s.mem.header.recordSize == p.size
    && s.mem.header.nextRecordId == s.disk.header.nextRecordId == p.next && s.mem.journalOpen == !p.mode.Idle?
    && |s.disk.pages| <= p.pages
    && (p.mode.Journaled? ==> SettledDisk(s.disk))
  }

  lemma Inside(s: State, p: Plain)
    requires Represents(s, p) && p.mode.Journaled?
    ensures InTransaction(s)
  {
    hide Runs, FreeAgrees, NoneLost, SettledDisk, Operable, DirectoryOf, Singles;
  }

  lemma RepresentedFacts(s: State, p: Plain)
    requires Represents(s, p)
    ensures Full(s) && Core(s) && Coherent(s) && |Entries(s.disk)| == |p.records|
    ensures p.size > 0 && 1 <= p.next && s.mem.header.nextRecordId == p.next
    ensures s.mem.header.recordSize == p.size && PagesPer(s) == CalculatePagesNeeded(p.size)
    ensures s.mem.header.recordCount == |Entries(s.disk)| <= MAX_RECORDS && |s.disk.pages| <= p.pages
  {
    EntryCount(s);
    DirectorySize(Entries(s.disk));
    assert |Data(s)| == |Data(s).Keys| && |Dir(s.disk)| == |Dir(s.disk).Keys|;
  }

  /** Inside a transaction the journal stays settled. */
  lemma SettledStep(s: State, p: Plain, c: Change)
    requires Represents(s, p) && Ready(s, c)
    ensures p.mode.Journaled? ==> SettledDisk(After(s, Run(s, c)).disk)
  {
    hide *;
    if p.mode.Journaled? {
      Inside(s, p);
      RepresentedFacts(s, p);
      OperationKeeps(s, c);
      JournaledIn(After(s, Run(s, c)));
    }
  }

  lemma AddRefines(s: State, p: Plain, data: bytes)
    requires Represents(s, p) && Allowed(p, AddOp(data))
    ensures Room(s)
    ensures var o := Add(s, data); o.ok && Represents(After(s, o), PlainStep(p, AddOp(data)).0)
  {
    hide Full, Core, Coherent, Data, Add, PagesPer, CalculatePagesNeeded;
    RepresentedFacts(s, p);
    AddKeepsCore(s, data);
    AddKeepsFull(s, data);
    AddGrowth(s, data);
    SettledStep(s, p, Insert(data));
  }

  lemma AddGrowth(s: State, data: bytes)
    requires Coherent(s) && Room(s)
    ensures |After(s, Add(s, data)).disk.pages| <= |s.disk.pages| + PagesPer(s)
    ensures PagesPer(After(s, Add(s, data))) == PagesPer(s)
    ensures Add(s, data).mem.journalOpen == s.mem.journalOpen
    ensures Add(s, data).mem.header.recordSize == s.mem.header.recordSize
  {
    hide ApplyAll, WithRun, RecordWrites, IndexWrites, Allocator.Sound, Count, Runs, WriteEntries;
    AllocatedBelow(s);
    AddEffect(s, data);
  }

  lemma UpdateRefines(s: State, p: Plain, id: int32, data: bytes)
    requires Represents(s, p) && |data| == p.size
    ensures var (p', r) := PlainStep(p, UpdateOp(id, data));
      Represents(After(s, Update(s, id, data)), p') && (Update(s, id, data).ok <==> r == Done) && r in {Done, Failed}
  {
    hide Full, Core, Coherent, Data, Update, PagesPer;
    RepresentedFacts(s, p);
    UpdateKeeps(s, id, data);
    UpdateLength(s, id, data);
    SamePagesPer(s, After(s, Update(s, id, data)));
    SettledStep(s, p, Replace(id, data));
  }

  lemma SamePagesPer(s: State, s': State)
    requires s.mem.header.recordSize == s'.mem.header.recordSize
    ensures PagesPer(s) == PagesPer(s')
  {
  }

  lemma UpdateLength(s: State, id: int32, data: bytes)
    requires Coherent(s)
    ensures var s' := After(s, Update(s, id, data));
      |s'.disk.pages| == |s.disk.pages| && s'.disk.header == s.disk.header
  {
    hide ApplyAll, WithRun, RecordWrites, Runs, WriteEntries;
    if id in Dir(s.disk) {
      UpdateEffect(s, id, data);
    } else {
      ApplyNone(s.disk);
    }
  }

  lemma DeleteRefines(s: State, p: Plain, id: int32)
    requires Represents(s, p)
    ensures var (p', r) := PlainStep(p, DeleteOp(id));
      Represents(After(s, Delete(s, id)), p') && (Delete(s, id).ok <==> r == Done) && r in {Done, Failed}
  {
    hide Full, Core, Coherent, Data, Delete, PagesPer;
    RepresentedFacts(s, p);
    DeleteKeeps(s, id);
    DeleteKeepsFull(s, id);
    DeleteLength(s, id);
    SamePagesPer(s, After(s, Delete(s, id)));
    SettledStep(s, p, Erase(id));
  }

  lemma DeleteLength(s: State, id: int32)
    requires Coherent(s)
    ensures var o, s' := Delete(s, id), After(s, Delete(s, id));
      && |s'.disk.pages| == |s.disk.pages| && s'.disk.header == (if o.ok then o.mem.header else s.disk.header)
      && o.mem.header.recordSize == s.mem.header.recordSize && o.mem.journalOpen == s.mem.journalOpen
  {
    hide ApplyAll, WithoutRun, Delete, Operable, Runs, FreeAgrees, HeadersAgree, Dir, EraseEntries, EraseWrites,
      IndexWrites, PagesPer, Leaf.Deleted, Allocator.Release;
    DeleteIs(s, id);
    if id in Dir(s.disk) {
      DeleteEffect(s, id);
    } else {
      ApplyNone(s.disk);
    }
  }

  lemma UpkeepRefines(s: State, p: Plain)
    requires Represents(s, p)
    ensures Represents(After(s, UpdateFree(s)), p) && Represents(After(s, Rebuild(s)), p)
  {
    hide Full, Core, Coherent, Data, PagesPer, ApplyAll, RebuildWrites, Scanned, LeafOf, Allocator.Refilled;
    RepresentedFacts(s, p);
    FileBound(s);
    MaintenanceKeeps(s);
    ApplyOne(s.disk, PutFree(Allocator.Refilled(s.disk.pages)));
    RebuildEffect(s.disk);
    SamePagesPer(s, After(s, UpdateFree(s)));
    SamePagesPer(s, After(s, Rebuild(s)));
  }

  lemma FileBound(s: State)
    requires Coherent(s)
    ensures |s.disk.pages| <= Allocator.MAX_PAGES == 0x7FFF_FFFD
  {
  }

  lemma CompactRefines(s: State, p: Plain, now: int32)
    requires Represents(s, p)
    ensures |CompactFrom(s.disk.pages, PagesPer(s), 0)| <= Allocator.MAX_PAGES
    ensures Compact(s, now).ok && Represents(After(s, Compact(s, now)), PlainStep(p, CompactOp(now)).0)
  {
    hide Full, Core, Coherent, Data, PagesPer, ApplyAll, CompactFrom, RebuildWrites, Scanned, LeafOf,
      Allocator.Refilled, InUse;
    RepresentedFacts(s, p);
    CompactsToInUse(s);
    CompactKeeps(s, now);
    CompactEffect(s, now);
    SamePagesPer(s, After(s, Compact(s, now)));
  }

  lemma BracketsRefine(s: State, p: Plain)
    requires Represents(s, p)
    ensures Represents(After(s, Begin(s.mem)), p.(mode := Journaled))
    ensures Represents(After(s, Commit(s.mem)), p.(mode := Idle))
  {
    hide Full, Core, Coherent, Data, PagesPer, ApplyAll, InTransaction;
    RepresentedFacts(s, p);
    BeginEffect(s);
    BeginStarts(s);
    JournaledIn(Begun(s));
    CommitEffect(s);
    Relabelled(s, Begun(s), true);
    Relabelled(s, After(s, Commit(s.mem)), false);
  }

  /** The pending flag, the journal and a header written back make no difference to the records. */
  lemma Relabelled(s: State, s': State, pending: bool)
    requires Full(s) && s'.mem.journalOpen == pending && s'.mem.free == s.mem.free
    requires s'.mem.header == s.mem.header.(journalPending := pending) && s'.disk.header == s'.mem.header
    requires s'.disk == s.disk.(journal := s'.disk.journal, header := s'.disk.header)
      && (pending ==> s'.disk.journal.Some?)
    ensures Full(s') && Data(s') == Data(s) && PagesPer(s') == PagesPer(s)
  {
    hide Runs, Owned, Count, Singles, DirectoryOf, Records, Allocator.Sound;
  }

  /** Closing and opening again keeps what the plain map has, and ends a transaction. */
  lemma ReopenRefines(s: State, p: Plain)
    requires Represents(s, p) && !p.mode.Stranded?
    ensures Opens(Closed(s)) && Represents(Reopened(Closed(s)), p.(mode := Idle))
  {
    if p.mode.Journaled? {
      ReopenInside(s, p);
    } else {
      ReopenOutside(s, p);
    }
  }

  lemma ReopenOutside(s: State, p: Plain)
    requires Represents(s, p) && p.mode.Idle?
    ensures Opens(Closed(s)) && Represents(Reopened(Closed(s)), p)
  {
    RepresentedFacts(s, p);
    hide Runs, Owned, Count, Singles, DirectoryOf, Records, Allocator.Sound, IdsBelow, ApplyAll;
    CloseEffect(s);
    ApplyNone(Closed(s));
    assert Reopened(Closed(s)) == State(Memory(s.mem.header, s.mem.free, false), Closed(s));
    Relabelled(s, Reopened(Closed(s)), false);
  }

  /** A transaction that is closed is recovered: its journal is replayed and changes nothing. */
  lemma ReopenInside(s: State, p: Plain)
    requires Represents(s, p) && p.mode.Journaled?
    ensures Opens(Closed(s)) && Represents(Reopened(Closed(s)), p.(mode := Idle))
  {
    hide *;
    RepresentedFacts(s, p);
    Inside(s, p);
    JournaledIn(s);
    TransactionFacts(s);
    CloseEffect(s);
    ClosedInside(s);
    SettledRecoverable(s);
    RecoverableRecovers(s.disk, s, 0);
    RecoveredRepresents(s.disk, s, p);
  }

  lemma ClosedInside(s: State)
    requires InTransaction(s)
    ensures s.disk.(header := s.mem.header, free := s.mem.free) == s.disk
  {
    hide Runs, NoneLost, SettledDisk, Operable, DirectoryOf, Singles, Allocator.Sound;
  }

  lemma RecoveredRepresents(d: Disk, s: State, p: Plain)
    requires Represents(s, p) && RecoversTo(d, s) && d.header.nextRecordId == p.next
    requires |Reopened(d).disk.pages| == |s.disk.pages| && Reopened(d).mem.header.recordSize == p.size
    ensures Opens(d) && Represents(Reopened(d), p.(mode := Idle))
  {
    hide Runs, NoneLost, SettledDisk, Operable, DirectoryOf, Singles, FreeAgrees, Replayable, Open, Reopened, Records;
    var r := Reopened(d);
    PartsOf(r);
    PartsOf(s);
    forall id | id in Dir(r.disk) ensures 1 <= id < p.next {
      assert id in Data(s);
    }
  }

  /** Every operation gives the answer of the plain map and leaves a database that represents its new value. */
  lemma StepRefines(s: State, p: Plain, op: Op)
    requires Represents(s, p) && Allowed(p, op)
    ensures Coherent(s) && Enabled(s, op)
    ensures Step(s, op).1 == PlainStep(p, op).1 && Represents(Step(s, op).0, PlainStep(p, op).0)
  {
    hide Full, Core, Coherent, Data, Add, Update, Delete, FindRecord, Compact, CompactFrom, RebuildWrites,
      Represents, Closed, Reopened, Open, After, Room;
    RepresentedFacts(s, p);
    match op {
      case AddOp(data) => AddRefines(s, p, data);
      case UpdateOp(id, data) => UpdateRefines(s, p, id, data);
      case DeleteOp(id) => DeleteRefines(s, p, id);
      case FindOp(id) =>
        FindsRecords(s, id);
        RepresentedData(s, p);
      case UpdateFreeOp => UpkeepRefines(s, p);
      case RebuildOp => UpkeepRefines(s, p);
      case CompactOp(now) => CompactRefines(s, p, now);
      case BeginOp => BracketsRefine(s, p);
      case CommitOp => BracketsRefine(s, p);
      case ReopenOp => ReopenRefines(s, p);
    }
  }

  lemma RepresentedData(s: State, p: Plain)
    requires Represents(s, p)
    ensures Coherent(s) && Data(s) == p.records
  {
  }

  // ---- Runs of operations ----

  predicate AllAllowed(p: Plain, ops: seq<Op>)
    decreases |ops|
  {
    ops == [] || (Allowed(p, ops[0]) && AllAllowed(PlainStep(p, ops[0]).0, ops[1..]))
  }

  function PlainRun(p: Plain, ops: seq<Op>): (Plain, seq<Reply>)
    requires AllAllowed(p, ops)
    decreases |ops|
  {
    if ops == [] then (p, [])
    else
      var (p1, r) := PlainStep(p, ops[0]);
      var (p2, rs) := PlainRun(p1, ops[1..]);
      (p2, [r] + rs)
  }

  function RunOps(s: State, p: Plain, ops: seq<Op>): (State, seq<Reply>)
    requires Represents(s, p) && AllAllowed(p, ops)
    decreases |ops|
  {
    if ops == [] then (s, [])
    else
      StepRefines(s, p, ops[0]);
      var (s1, r) := Step(s, ops[0]);
      var (s2, rs) := RunOps(s1, PlainStep(p, ops[0]).0, ops[1..]);
      (s2, [r] + rs)
  }

  lemma {:induction false} RunRefines(s: State, p: Plain, ops: seq<Op>)
    requires Represents(s, p) && AllAllowed(p, ops)
    ensures RunOps(s, p, ops).1 == PlainRun(p, ops).1 && Represents(RunOps(s, p, ops).0, PlainRun(p, ops).0)
    decreases |ops|
  {
    hide Represents, Step, PlainStep, Allowed, Enabled;
    if ops != [] {
      StepRefines(s, p, ops[0]);
      RunRefines(Step(s, ops[0]).0, PlainStep(p, ops[0]).0, ops[1..]);
    }
  }

  lemma {:induction false} PlainIdsRise(p: Plain, ops: seq<Op>, i: nat)
    requires AllAllowed(p, ops) && i < |ops| && ops[i].AddOp?
    ensures |PlainRun(p, ops).1| == |ops|
    ensures var rs := PlainRun(p, ops).1;
      && rs[i].Id? && rs[i].id >= p.next
      && forall j :: i < j < |ops| && ops[j].AddOp? ==> rs[j].Id? && rs[j].id > rs[i].id
    decreases |ops|
  {
    RepliesLength(p, ops);
    var p1 := PlainStep(p, ops[0]).0;
    var rest := PlainRun(p1, ops[1..]).1;
    RepliesLength(p1, ops[1..]);
    assert PlainRun(p, ops).1[1..] == rest;
    if i > 0 {
      PlainIdsRise(p1, ops[1..], i - 1);
    } else {
      forall j | 0 < j < |ops| && ops[j].AddOp? ensures rest[j - 1].Id? && rest[j - 1].id >= p1.next {
        PlainIdsRise(p1, ops[1..], j - 1);
      }
    }
  }

  /** The ids that the database gives to added records are new, and they rise from one addition to the next. */
  lemma IdsRise(s: State, p: Plain, ops: seq<Op>, i: nat)
    requires Represents(s, p) && AllAllowed(p, ops) && i < |ops| && ops[i].AddOp?
    ensures |RunOps(s, p, ops).1| == |ops|
    ensures var rs := RunOps(s, p, ops).1;
      && rs[i].Id? && rs[i].id >= s.mem.header.nextRecordId
      && forall j :: i < j < |ops| && ops[j].AddOp? ==> rs[j].Id? && rs[j].id > rs[i].id
  {
    hide *;
    RepresentedFacts(s, p);
    RunRefines(s, p, ops);
    PlainIdsRise(p, ops, i);
  }

  lemma {:induction false} RepliesLength(p: Plain, ops: seq<Op>)
    requires AllAllowed(p, ops)
    ensures |PlainRun(p, ops).1| == |ops|
    decreases |ops|
  {
    if ops != [] {
      RepliesLength(PlainStep(p, ops[0]).0, ops[1..]);
    }
  }

  lemma CreateRepresents(size: uint16, journal: Option<seq<DBJournalEntry>>)
    requires size > 0
    ensures var d := Created(size, journal);
      !d.header.journalPending && Open(d).Some? && Represents(Reopened(d), Plain(size, map[], 1, 0, Idle))
  {
    ApplyNone(Created(size, journal));
    NoEntries();
    assert Records([], size, map[]) == map[];
  }

  /** Every run of operations on a newly created database gives the answers of a plain map that starts empty, and the
      records in the end are those of the map. */
  lemma WholeRun(size: uint16, journal: Option<seq<DBJournalEntry>>, ops: seq<Op>)
    requires size > 0 && AllAllowed(Plain(size, map[], 1, 0, Idle), ops)
    ensures var d, p := Created(size, journal), Plain(size, map[], 1, 0, Idle);
      && !d.header.journalPending && Open(d).Some? && Represents(Reopened(d), p)
      && var (s', replies) := RunOps(Reopened(d), p, ops);
      && replies == PlainRun(p, ops).1
      && Full(s') && Data(s') == PlainRun(p, ops).0.records && Validates(s')
  {
    hide Full, Data, Reopened, Open, Created, Coherent, Validates, PlainRun, RunOps, AllAllowed;
    CreateRepresents(size, journal);
    var d, p := Created(size, journal), Plain(size, map[], 1, 0, Idle);
    RunRefines(Reopened(d), p, ops);
    FullValidates(RunOps(Reopened(d), p, ops).0);
  }

  lemma NotPending(s: State)
    requires Full(s) && !s.mem.journalOpen
    ensures !s.mem.header.journalPending
  {
  }

  /** The records' pages, the free pages and the two leading pages make up the file, modulo 2^16 through the 16-bit free
      page count, and exactly when fewer than 2^16 pages are empty, as in any file of at most 65537 pages. */
  lemma PagesConserved(s: State)
    requires Full(s)
    ensures var used, total := s.mem.header.recordCount * PagesPer(s) + s.mem.free.count + 2, |s.disk.pages| + 2;
      && used <= total && (total - used) % 0x1_0000 == 0
      && (used == total <==> Count(s.disk.pages, PS_EMPTY) < 0x1_0000)
      && (total <= 65537 ==> used == total)
  {
    hide Count, Singles, DirectoryOf, Runs, Owned, Allocator.Sound, Operable, CalculatePagesNeeded;
    Exchanged(s.mem.header.recordCount, PagesPer(s));
    CountedShort(Count(s.disk.pages, PS_EMPTY));
  }

  lemma Exchanged(a: int, b: int)
    ensures a * b == b * a
  {
  }

  lemma CountedShort(e: nat)
    ensures e % 0x1_0000 <= e && (e - e % 0x1_0000) % 0x1_0000 == 0
    ensures e == e % 0x1_0000 <==> e < 0x1_0000
  {
  }
}
