/** A crash at any write of any operation, inside a transaction or outside: whenever the database still opens, it can be
    mended to a plain map of records. */
module Salvage {
  import opened Words
  import opened DbTypes
  import opened Pages
  import opened Disk
  import opened Directories
  import opened Engine
  import opened Refinement
  import opened Maintenance
  import opened Scans
  import opened Compaction
  import opened Journal
  import opened Recovery
  import opened Crash
  import opened Transactions
  import opened Restarts
  import opened Torn
  import opened AnyCrash
  import opened PlainMap
  import opened Upkeep
  import opened Mending
  import opened Outside
  import Allocator
  import BTree
  import Leaf

  // ---- What makes a disk salvageable ----

  lemma SalvageableFrom(d: Disk, size: uint16, next: int32, records: map<int32, bytes>, dir: Directory,
                        left: Option<int>)
    requires Opens(d) && Openable(d) && Open(d).Some?
      && (d.leading == 2 && d.header.journalPending ==> d.journal.None? || Replayable(d))
    requires var r := Reopened(d);
      && GoodHeader(r.mem.header) && r.mem.header.recordSize == size && r.mem.header.nextRecordId == next
      && Mendable(r.disk.pages, CalculatePagesNeeded(size), dir, next, left) && IdsBelow(dir, next)
      && Runs(r.disk.pages, CalculatePagesNeeded(size), dir) && Records(r.disk.pages, size, dir) == records
    ensures Salvageable(d, size, next, records, dir, left)
  {
    hide GoodHeader, Runs, Mendable, Records, IdsBelow, Reopened, Open, Openable, Replayable;
  }

  /** Without a pending transaction, by the pages. */
  lemma PagesSalvage(d: Disk, size: uint16, next: int32, dir: Directory, left: Option<int>)
    requires d.leading == 2 && !d.header.journalPending && d.index != BTree.NoHeader
    requires GoodHeader(d.header) && d.header.recordSize == size && d.header.nextRecordId == next
    requires Mendable(d.pages, CalculatePagesNeeded(size), dir, next, left) && IdsBelow(dir, next)
    ensures Runs(d.pages, CalculatePagesNeeded(size), dir)
    ensures Salvageable(d, size, next, Records(d.pages, size, dir), dir, left)
  {
    hide *;
    GoodSignature(d.header);
    OpensUnpending(d);
    OpensIs(d);
    OpenableIs(d);
    MendableParts(d.pages, CalculatePagesNeeded(size), dir, next, left);
    SalvageableFrom(d, size, next, Records(d.pages, size, dir), dir, left);
  }

  lemma GoodSignature(h: DBHeader)
    requires GoodHeader(h)
    ensures h.signature == DB_SIGNATURE
  {
  }

  lemma OpenableIs(d: Disk)
    ensures Openable(d) <==> (d.leading == 2 && d.header.journalPending ==> d.journal.None? || Replayable(d))
  {
    hide Replayable;
  }

  /** With a pending transaction, by the replayed pages. */
  lemma JournalSalvage(d: Disk, size: uint16, next: int32, dir: Directory, left: Option<int>)
    requires d.leading == 2 && d.header.journalPending && d.index != BTree.NoHeader
    requires GoodHeader(d.header) && d.header.recordSize == size && d.header.nextRecordId == next && Replayable(d)
    requires d.journal.Some?
      && Mendable(Redone(d), CalculatePagesNeeded(size), dir, next, left) && IdsBelow(dir, next)
    ensures Runs(Redone(d), CalculatePagesNeeded(size), dir)
    ensures Salvageable(d, size, next, Records(Redone(d), size, dir), dir, left)
  {
    hide *;
    RecoveredState(d);
    OpensIs(d);
    OpenableIs(d);
    GoodAgree(Reopened(d).mem, Reopened(d).disk);
    MendableParts(Redone(d), CalculatePagesNeeded(size), dir, next, left);
    SalvageableFrom(d, size, next, Records(Redone(d), size, dir), dir, left);
  }

  lemma GoodAgree(mem: Memory, d: Disk)
    requires HeadersAgree(mem, d)
    ensures GoodHeader(mem.header)
  {
  }

  /** Where the recovered database is coherent and its active pages are the starts of its records. */
  lemma CoherentSalvage(d: Disk, stale: bool)
    requires Opens(d) && Coherent(Reopened(d)) && Starts(Reopened(d).disk.pages, Dir(Reopened(d).disk))
    requires IdsUpTo(Data(Reopened(d)), Reopened(d).mem.header.nextRecordId, stale)
    ensures var r := Reopened(d);
      var next := r.mem.header.nextRecordId;
      && (stale ==> next in Dir(r.disk))
      && Salvageable(d, r.mem.header.recordSize, next, Data(r) - {next}, Dir(r.disk) - {next},
           if stale then Some(Dir(r.disk)[next]) else None)
  {
    hide *;
    OpensIs(d);
    OpenableIs(d);
    var r := Reopened(d);
    PartsOf(r);
    GoodAgree(r.mem, r.disk);
    CoherentMendable(r, stale);
    var next, dir := r.mem.header.nextRecordId, Dir(r.disk);
    FewerRecords(r.disk.pages, r.mem.header.recordSize, dir, next);
    SalvageableFrom(d, r.mem.header.recordSize, next, Data(r) - {next}, dir - {next},
                    if stale then Some(dir[next]) else None);
  }

  lemma CoherentMendable(r: State, stale: bool)
    requires Coherent(r) && Starts(r.disk.pages, Dir(r.disk))
    requires IdsUpTo(Data(r), r.mem.header.nextRecordId, stale)
    ensures var next, dir := r.mem.header.nextRecordId, Dir(r.disk);
      && (stale ==> next in dir) && IdsBelow(dir - {next}, next)
      && Mendable(r.disk.pages, PagesPer(r), dir - {next}, next, if stale then Some(dir[next]) else None)
  {
    hide *;
    PartsOf(r);
    FileSize(r);
    EntryCount(r);
    DirSize(r);
    var next, dir, n := r.mem.header.nextRecordId, Dir(r.disk), PagesPer(r);
    FewerRuns(r.disk.pages, n, dir, next);
    IdsOf(Data(r), dir, next, stale);
    if stale {
      RemovedAgain(dir, next);
      OthersElsewhere(r.disk.pages, n, dir, next);
      RunInFile(r.disk.pages, n, dir, next);
      MendableLeft(r.disk.pages, n, dir - {next}, next, dir[next]);
    } else {
      NotKey(dir, next);
      MendableWhen(r.disk.pages, n, dir, next);
    }
  }

  lemma IdsOf(data: map<int32, bytes>, dir: Directory, next: int32, stale: bool)
    requires IdsUpTo(data, next, stale) && forall id :: id in data <==> id in dir
    ensures (stale <==> next in dir) && IdsBelow(dir - {next}, next)
  {
  }

  lemma RemovedAgain(dir: Directory, next: int32)
    requires next in dir
    ensures (dir - {next})[next := dir[next]] == dir && |dir - {next}| < |dir| && next !in dir - {next}
  {
    assert (dir - {next})[next := dir[next]] == dir;
    assert dir.Keys == (dir - {next}).Keys + {next};
  }

  lemma NotKey(dir: Directory, next: int32)
    requires next !in dir
    ensures dir - {next} == dir
  {
  }

  lemma FewerRuns(pages: Store, n: nat, dir: Directory, id: int32)
    requires Runs(pages, n, dir)
    ensures Runs(pages, n, dir - {id})
  {
    hide IsRun;
  }

  // ---- The writes of an operation ----

  function OpWrites(s: State, op: Op): seq<Write>
    requires Coherent(s) && Enabled(s, op)
  {
    match op
    case AddOp(data) => Add(s, data).writes
    case UpdateOp(id, data) => Update(s, id, data).writes
    case DeleteOp(id) => Delete(s, id).writes
    case FindOp(_) => []
    case UpdateFreeOp => UpdateFree(s).writes
    case RebuildOp => Rebuild(s).writes
    case CompactOp(now) => Compact(s, now).writes
    case BeginOp => Begin(s.mem).writes
    case CommitOp => Commit(s.mem).writes
    case ReopenOp => CloseWrites(s.mem) + Open(Closed(s)).value.writes
  }

  /** The disk after a crash that lets the first `k` writes of the operation reach it. */
  function CrashDisk(s: State, op: Op, k: nat): Disk
    requires Coherent(s) && Enabled(s, op) && k <= |OpWrites(s, op)|
  {
    ApplyAll(s.disk, OpWrites(s, op)[..k])
  }

  /** All writes together lead to the state after the operation. */
  lemma AllWritten(s: State, op: Op)
    requires Coherent(s) && Enabled(s, op)
    ensures CrashDisk(s, op, |OpWrites(s, op)|) == Step(s, op).0.disk
  {
    hide ApplyAll, Operable, Room, Runs, Add, Update, Delete, Compact, CompactFrom, RebuildWrites, Begin, Commit,
      Allocator.Refilled, Open, Openable, HeadersAgree, FreeAgrees;
    var ws := OpWrites(s, op);
    assert ws[..|ws|] == ws;
    if op.FindOp? {
      ApplyNone(s.disk);
    } else if op.ReopenOp? {
      OpensIs(Closed(s));
      ApplyConcat(s.disk, CloseWrites(s.mem), Open(Closed(s)).value.writes);
    }
  }

  /** How much of the operation the crash leaves: for an addition 1 when it is complete, for an update the number of
      pages, for a deletion 1 as soon as it has begun. */
  function Part(s: State, op: Op, k: nat): nat
    requires Coherent(s) && Enabled(s, op)
  {
    match op
    case AddOp(_) => if k == |OpWrites(s, op)| then 1 else 0
    case UpdateOp(_, _) => if k < PagesPer(s) then k else PagesPer(s)
    case DeleteOp(_) => if k == 0 then 0 else 1
    case _ => 0
  }

  /** The plain map with other records, outside a transaction and in the smallest file. */
  function Still(p: Plain, records: map<int32, bytes>, next: int32): Plain {
    Smallest(p.size, records, next)
  }

  lemma SalvageMends(d: Disk, p: Plain, next: int32, records: map<int32, bytes>, dir: Directory, left: Option<int>,
                     now: int32)
    requires Salvageable(d, p.size, next, records, dir, left)
    ensures MendsTo(d, now, Still(p, records, next))
  {
    hide Salvageable, MendsTo, Smallest;
    Mends(d, p.size, next, records, dir, left, now);
  }

  // ---- Outside a transaction ----

  /** The parts of a represented state. */
  lemma WholeParts(s: State, p: Plain)
    requires Represents(s, p)
    ensures Full(s) && Coherent(s) && Indexed(s.disk) && p.size > 0 && 1 <= p.next
    ensures s.mem.header.recordSize == p.size && s.mem.header.nextRecordId == p.next == s.disk.header.nextRecordId
    ensures PagesPer(s) == CalculatePagesNeeded(p.size) && |Dir(s.disk)| <= MAX_RECORDS && p.next !in p.records
    ensures Runs(s.disk.pages, CalculatePagesNeeded(p.size), Dir(s.disk)) && IdsBelow(Dir(s.disk), p.next)
    ensures Owned(s.disk.pages, CalculatePagesNeeded(p.size), Dir(s.disk))
    ensures Starts(s.disk.pages, Dir(s.disk)) && |s.disk.pages| <= Allocator.MAX_PAGES && p.next !in Dir(s.disk)
    ensures Records(s.disk.pages, p.size, Dir(s.disk)) == Data(s) == p.records
    ensures forall id :: id in p.records ==> |p.records[id]| == p.size
    ensures s.disk.leading == 2 && GoodHeader(s.disk.header) && s.disk.header.recordSize == p.size
      && s.disk.index.Ready?
    ensures s.disk.header == s.mem.header
  {
    hide Runs, Owned, Starts, Records, Count, DirectoryOf, Singles, Allocator.Sound, Operable;
    RepresentedFacts(s, p);
    TornFacts(s);
    PartsOf(s);
    EntryCount(s);
    DirectorySize(Entries(s.disk));
    RunsStart(s.disk.pages, PagesPer(s), Dir(s.disk));
  }

  lemma AtRest(s: State, p: Plain)
    requires Represents(s, p) && p.mode.Idle?
    ensures Resting(s)
  {
    hide *;
    WholeParts(s, p);
    AtRestIs(s, p);
  }

  lemma AtRestIs(s: State, p: Plain)
    requires Represents(s, p) && p.mode.Idle? && s.disk.header == s.mem.header
    ensures Resting(s)
  {
    hide Full;
  }

  lemma MendableWhen(pages: Store, n: nat, dir: Directory, next: int32)
    requires |pages| <= Allocator.MAX_PAGES && next !in dir && Runs(pages, n, dir) && Starts(pages, dir)
    requires |dir| <= MAX_RECORDS
    ensures Mendable(pages, n, dir, next, None)
  {
    hide Runs, Starts;
  }

  lemma MendableLeft(pages: Store, n: nat, dir: Directory, next: int32, slot: nat)
    requires |pages| <= Allocator.MAX_PAGES && next !in dir && Runs(pages, n, dir) && Starts(pages, dir[next := slot])
    requires |dir| < MAX_RECORDS && slot + n <= |pages|
    requires forall id :: id in dir ==> dir[id] + n <= slot || slot + n <= dir[id]
    ensures Mendable(pages, n, dir, next, Some(slot))
  {
    hide Runs, Starts;
  }

  /** Nothing has happened to the pages. */
  lemma QuietOutside(d: Disk, s: State, p: Plain, now: int32)
    requires Represents(s, p) && d.pages == s.disk.pages
    requires d.leading == 2 && !d.header.journalPending && d.index != BTree.NoHeader
    requires GoodHeader(d.header) && d.header.recordSize == p.size && d.header.nextRecordId == p.next
    ensures MendsTo(d, now, Still(p, p.records, p.next))
  {
    hide *;
    WholeParts(s, p);
    MendableWhen(d.pages, CalculatePagesNeeded(p.size), Dir(s.disk), p.next);
    PagesSalvage(d, p.size, p.next, Dir(s.disk), None);
    SalvageMends(d, p, p.next, p.records, Dir(s.disk), None, now);
  }

  lemma UpdateOutside(s: State, p: Plain, id: int32, data: bytes, k: nat, now: int32)
    requires Represents(s, p) && p.mode.Idle? && |data| == p.size && id in p.records && Operable(s)
    requires k <= |Update(s, id, data).writes|
    ensures |p.records[id]| == |data| && k <= PagesPer(s)
    ensures MendsTo(ApplyAll(s.disk, Update(s, id, data).writes[..k]), now,
                    Still(p, p.records[id := Mixed(p.records[id], data, k)], p.next))
  {
    hide *;
    WholeParts(s, p);
    AtRest(s, p);
    RestingFacts(s);
    PartsOf(s);
    UpdateCut(s, id, data, k);
    var d, n, dir := ApplyAll(s.disk, Update(s, id, data).writes[..k]), PagesPer(s), Dir(s.disk);
    TornRecords(s.disk.pages, p.size, dir, id, data, k);
    StartsShaped(s.disk.pages, d.pages, dir);
    MendableWhen(d.pages, n, dir, p.next);
    NotNone(d.index);
    PagesSalvage(d, p.size, p.next, dir, None);
    SalvageMends(d, p, p.next, p.records[id := Mixed(p.records[id], data, k)], dir, None, now);
  }

  lemma NotNone(f: BTree.IndexFile)
    ensures f.Ready? ==> f != BTree.NoHeader
  {
  }

  lemma StartsShaped(a: Store, b: Store, dir: Directory)
    requires SameShape(b, a) && Starts(a, dir)
    ensures Starts(b, dir) && |b| == |a|
  {
  }

  lemma DeleteOutside(s: State, p: Plain, id: int32, k: nat, now: int32)
    requires Represents(s, p) && p.mode.Idle? && id in p.records && Operable(s)
    requires 1 <= k <= |Delete(s, id).writes|
    ensures MendsTo(ApplyAll(s.disk, Delete(s, id).writes[..k]), now, Still(p, p.records - {id}, p.next))
  {
    hide *;
    WholeParts(s, p);
    AtRest(s, p);
    RestingFacts(s);
    PartsOf(s);
    DeleteCut(s, id, k);
    DeleteHeader(s, id);
    var d, n, dir := ApplyAll(s.disk, Delete(s, id).writes[..k]), PagesPer(s), Dir(s.disk);
    ErasedPages(s.disk.pages, p.size, dir, id, if k < n then k else n);
    FewerIds(dir, id, p.next);
    GoodCount(s.mem.header, d.header);
    MendableWhen(d.pages, n, dir - {id}, p.next);
    NotNone(d.index);
    PagesSalvage(d, p.size, p.next, dir - {id}, None);
    SalvageMends(d, p, p.next, p.records - {id}, dir - {id}, None, now);
  }

  lemma FewerIds(dir: Directory, id: int32, next: int32)
    requires IdsBelow(dir, next)
    ensures IdsBelow(dir - {id}, next) && |dir - {id}| <= |dir| && (next !in dir ==> next !in dir - {id})
  {
    assert (dir - {id}).Keys <= dir.Keys;
    SetSize((dir - {id}).Keys, dir.Keys);
    assert |dir - {id}| == |(dir - {id}).Keys| && |dir| == |dir.Keys|;
  }

  lemma SetSize(a: set<int32>, b: set<int32>)
    requires a <= b
    ensures |a| <= |b|
  {
    assert b == a + (b - a);
  }

  lemma GoodCount(a: DBHeader, b: DBHeader)
    requires GoodHeader(a) && b == a.(recordCount := b.recordCount)
    ensures GoodHeader(b) && b.recordSize == a.recordSize && b.nextRecordId == a.nextRecordId
  {
  }

  lemma AddOutside(s: State, p: Plain, data: bytes, k: nat, now: int32)
    requires Represents(s, p) && p.mode.Idle? && Allowed(p, AddOp(data)) && Operable(s) && Room(s)
    requires k < |Add(s, data).writes|
    ensures MendsTo(ApplyAll(s.disk, Add(s, data).writes[..k]), now, Still(p, p.records, p.next))
  {
    hide *;
    WholeParts(s, p);
    RepresentedFacts(s, p);
    AtRest(s, p);
    RestingFacts(s);
    AllocatedIs(s);
    GrantedRange(s);
    AllowedAdd(p, data);
    var e := AddCut(s, data, k);
    var a, n, id, dir, d, j := AddAllocation(s), PagesPer(s), p.next, Dir(s.disk),
      ApplyAll(s.disk, Add(s, data).writes[..k]), PagesBy(s, k);
    PartlyDoneIs(s.disk, After(s, Add(s, data)).disk.index, a.grown, a.first - 2, Images(id, data, n), j, e,
                 k == |Add(s, data).writes| - 1, d);
    ImagesLength(id, data, n);
    SizesAdd(s);
    NotNone(d.index);
    DirSize(s);
    if j == 0 {
      Extend(s.disk.pages, p.size, dir, e);
      StartsExtended(s.disk.pages, dir, e);
      MendableWhen(d.pages, n, dir, id);
      PagesSalvage(d, p.size, id, dir, None);
      SalvageMends(d, p, id, p.records, dir, None, now);
    } else {
      var base, slot := s.disk.pages + Empties(a.grown), a.first - 2;
      Extend(s.disk.pages, p.size, dir, a.grown);
      PartialPages(base, p.size, dir, slot, id, data, j);
      NewApart(base, n, dir, slot);
      OverwriteLength(base, slot, Images(id, data, n)[..j]);
      MendableLeft(d.pages, n, dir, id, slot);
      PagesSalvage(d, p.size, id, dir, Some(slot));
      SalvageMends(d, p, id, p.records, dir, Some(slot), now);
    }
  }

  lemma DirSize(s: State)
    requires Coherent(s)
    ensures |Dir(s.disk)| == |Entries(s.disk)|
  {
    hide Runs, DirectoryOf, Operable;
    DirectorySize(Entries(s.disk));
  }

  lemma AllowedAdd(p: Plain, data: bytes)
    requires Allowed(p, AddOp(data))
    ensures |data| == p.size && |p.records| < MAX_RECORDS
  {
  }

  lemma StartsExtended(pages: Store, dir: Directory, k: nat)
    requires Starts(pages, dir)
    ensures Starts(pages + Empties(k), dir) && |pages + Empties(k)| == |pages| + k
  {
  }

  lemma OverwriteLength(pages: Store, slot: nat, t: Store)
    requires slot + |t| <= |pages|
    ensures |Overwrite(pages, slot, t)| == |pages|
  {
    hide Overwrite;
  }

  lemma NewApart(pages: Store, n: nat, dir: Directory, slot: nat)
    requires n >= 1 && Runs(pages, n, dir) && AllEmpty(pages, slot, n)
    ensures slot + n <= |pages| && forall id :: id in dir ==> dir[id] + n <= slot || slot + n <= dir[id]
  {
    EmptyIsFree(pages, n, dir, slot, slot + n);
  }

  // ---- Inside a transaction ----

  /** Where recovery gives the records of a state, but for the next id. */
  lemma RecoveredMends(d: Disk, s: State, p: Plain, stale: bool, now: int32)
    requires Coherent(s) && RecoversTo(d, s) && Reopened(d).mem.header.recordSize == p.size
    requires IdsUpTo(Data(Reopened(d)), d.header.nextRecordId, stale)
    ensures MendsTo(d, now, Still(p, Data(s) - {d.header.nextRecordId}, d.header.nextRecordId))
  {
    hide *;
    RecoversFacts(d, s);
    var r := Reopened(d);
    PartsOf(r);
    NoneLostOwned(r);
    RunsStart(r.disk.pages, PagesPer(r), Dir(r.disk));
    CoherentSalvage(d, stale);
    var next := d.header.nextRecordId;
    SalvageMends(d, p, next, Data(r) - {next}, Dir(r.disk) - {next},
                 if stale then Some(Dir(r.disk)[next]) else None, now);
  }

  lemma NoneLostOwned(r: State)
    requires Coherent(r) && NoneLost(r)
    ensures Owned(r.disk.pages, PagesPer(r), Dir(r.disk))
  {
    hide Owned, Coherent, Count;
  }

  lemma RecoversFacts(d: Disk, s: State)
    requires Coherent(s) && RecoversTo(d, s)
    ensures Opens(d) && (d.leading == 2 && d.header.journalPending ==> d.journal.None? || Replayable(d))
      && Open(d).Some?
    ensures Coherent(Reopened(d)) && NoneLost(Reopened(d)) && Data(Reopened(d)) == Data(s)
    ensures Reopened(d).mem.header.nextRecordId == d.header.nextRecordId
  {
    hide Coherent, NoneLost, Data, Open, Reopened, Replayable;
    OpensIs(d);
  }

  /** A pending journal that replays to the pages of the state. */
  lemma QuietInside(d: Disk, s: State, p: Plain, now: int32)
    requires Represents(s, p) && Recoverable(d, s, 0) && d.header.nextRecordId == p.next
    ensures MendsTo(d, now, Still(p, p.records, p.next))
  {
    hide *;
    WholeParts(s, p);
    RecoverableRecovers(d, s, 0);
    RecoversFacts(d, s);
    IdsBelowNext(s);
    RecoveredMends(d, s, p, false, now);
    NotThere(p.records, p.next);
  }

  lemma NotThere(records: map<int32, bytes>, id: int32)
    requires id !in records
    ensures records - {id} == records
  {
  }

  lemma CoherentMends(d: Disk, p: Plain, records: map<int32, bytes>, stale: bool, now: int32)
    requires Opens(d) && Coherent(Reopened(d)) && Starts(Reopened(d).disk.pages, Dir(Reopened(d).disk))
    requires Data(Reopened(d)) == records && Reopened(d).mem.header.recordSize == p.size
    requires Reopened(d).mem.header.nextRecordId == p.next && IdsUpTo(records, p.next, stale)
    ensures MendsTo(d, now, Still(p, records - {p.next}, p.next))
  {
    hide *;
    OpensIs(d);
    var r := Reopened(d);
    PartsOf(r);
    CoherentSalvage(d, stale);
    SalvageMends(d, p, p.next, records - {p.next}, Dir(r.disk) - {p.next},
                 if stale then Some(Dir(r.disk)[p.next]) else None, now);
  }

  lemma ReplaceMends(s: State, p: Plain, id: int32, data: bytes, m: nat, now: int32)
    requires Represents(s, p) && InTransaction(s) && |data| == p.size && id in p.records && m <= PagesPer(s)
    ensures Operable(s) && m <= |Update(s, id, data).writes| && |p.records[id]| == |data|
    ensures MendsTo(ApplyAll(s.disk, Update(s, id, data).writes[..m]), now,
                    Still(p, p.records[id := Mixed(p.records[id], data, m)] - {p.next}, p.next))
  {
    hide *;
    WholeParts(s, p);
    CoherentOperable(s);
    TornUpdate(s, id, data, m);
    var d := ApplyAll(s.disk, Update(s, id, data).writes[..m]);
    OpensIs(d);
    IdsBelowNext(s);
    IdsReplaced(p.records, p.next, id, Mixed(p.records[id], data, m));
    var r := Reopened(d);
    PartsOf(r);
    NoneLostOwned(r);
    RunsStart(r.disk.pages, PagesPer(r), Dir(r.disk));
    CoherentMends(d, p, p.records[id := Mixed(p.records[id], data, m)], false, now);
  }

  lemma CoherentOperable(s: State)
    requires Coherent(s)
    ensures Operable(s)
  {
    hide Operable;
  }

  lemma EraseMends(s: State, p: Plain, id: int32, m: nat, now: int32)
    requires Represents(s, p) && InTransaction(s) && id in p.records && 1 <= m <= PagesPer(s)
    ensures Operable(s) && m <= |Delete(s, id).writes|
    ensures MendsTo(ApplyAll(s.disk, Delete(s, id).writes[..m]), now, Still(p, p.records - {id} - {p.next}, p.next))
  {
    hide *;
    WholeParts(s, p);
    CoherentOperable(s);
    TornDelete(s, id, m);
    var d := ApplyAll(s.disk, Delete(s, id).writes[..m]);
    OpensIs(d);
    IdsBelowNext(s);
    IdsRemoved(p.records, p.next, id);
    CoherentMends(d, p, p.records - {id}, false, now);
  }

  /** Some of an addition's entries. */
  lemma InsertMends(s: State, p: Plain, data: bytes, m: nat, now: int32)
    requires Represents(s, p) && InTransaction(s) && Room(s) && |Entries(s.disk)| < MAX_RECORDS
    requires 1 <= m < PagesPer(s)
    ensures Operable(s) && |AddAllocation(s).writes| + m <= |Add(s, data).writes|
    ensures MendsTo(ApplyAll(s.disk, Add(s, data).writes[..|AddAllocation(s).writes| + m]), now,
                    Still(p, p.records, p.next))
  {
    hide *;
    WholeParts(s, p);
    CoherentOperable(s);
    TransactionFacts(s);
    AllocatedIs(s);
    PartialDisk(s, data, m);
    var a, n, dir, id := AddAllocation(s), PagesPer(s), Dir(s.disk), p.next;
    var base, slot, d := s.disk.pages + Empties(a.grown), a.first - 2,
      ApplyAll(s.disk, Add(s, data).writes[..|a.writes| + m]);
    PartlyAddedShape(s.disk, a, id, data, n, m, d);
    PartlyAddedIs(s.disk, a, id, data, n, m, d);
    Extend(s.disk.pages, p.size, dir, a.grown);
    PartialPages(base, p.size, dir, slot, id, data, m);
    NewApart(base, n, dir, slot);
    ImagesLength(id, data, n);
    OverwriteLength(base, slot, Images(id, data, n)[..m]);
    LastPage();
    DirSize(s);
    MendableLeft(Redone(d), n, dir, id, slot);
    RedoneIs(d);
    ReplayableIs(d);
    NotNone(s.disk.index);
    JournalSalvage(d, p.size, id, dir, Some(slot));
    SalvageMends(d, p, id, p.records, dir, Some(slot), now);
  }

  /** A crash inside an operation of a transaction. */
  lemma ChangeMends(s: State, p: Plain, c: Change, k: nat, now: int32)
    requires Represents(s, p) && InTransaction(s) && Ready(s, c) && k < |Run(s, c).writes|
    ensures Journals(s, c)
    ensures MendsTo(ApplyAll(s.disk, Run(s, c).writes[..k]), now,
                    Still(p, InsideData(s, c, EntriesBy(s, c, k)) - {p.next}, p.next))
  {
    hide *;
    WholeParts(s, p);
    JournaledIn(s);
    TransactionFacts(s);
    FullFacts(s);
    var m, grown := CrashInFirst(s, c, k);
    var _, _ := OperationCrash(s, c, k);
    var d := ApplyAll(s.disk, Run(s, c).writes[..k]);
    if m == 0 {
      InsideNothing(s, c);
      CrashesToRecovers(d, s, grown, false);
      RecoversFacts(d, s);
      RecoveredMends(d, s, p, false, now);
    } else if m == PagesPer(s) {
      WholeOperation(s, c);
      FullFacts(After(s, Run(s, c)));
      SameSize(s, c);
      CrashesToRecovers(d, After(s, Run(s, c)), 0, c.Insert?);
      RecoversFacts(d, After(s, Run(s, c)));
      RecoveredMends(d, After(s, Run(s, c)), p, c.Insert?, now);
    } else {
      EntriesAt(s, c, k);
      OperationIs(s, c);
      match c {
        case Insert(data) =>
          InsertMends(s, p, data, m, now);
          InsideInsert(s, data, m);
          NotThere(p.records, p.next);
        case Replace(id, data) =>
          ReplaceMends(s, p, id, data, m, now);
          InsideReplace(s, id, data, m);
        case Erase(id) =>
          EraseMends(s, p, id, m, now);
          InsideErase(s, id, m);
      }
    }
  }

  // ---- Operations that change no page ----

  /** The pages are as they were, and recovery, if it is due, replays nothing that would change them. */
  predicate Quiet(d: Disk, s: State, p: Plain) {
    && d.leading == 2 && d.pages == s.disk.pages
    && d.header == s.mem.header.(journalPending := d.header.journalPending)
    && (d.header.journalPending ==> d.journal == Some([]) || (p.mode.Journaled? && d.journal == s.disk.journal))
  }

  lemma QuietMends(d: Disk, s: State, p: Plain, now: int32)
    requires Represents(s, p) && Quiet(d, s, p) && d.index != BTree.NoHeader
    ensures Opens(d) && MendsTo(d, now, Still(p, p.records, p.next))
  {
    hide *;
    WholeParts(s, p);
    QuietHeader(d, s, p);
    if d.header.journalPending {
      QuietJournal(d, s, p);
      QuietInside(d, s, p, now);
      RecoverableRecovers(d, s, 0);
      RecoversFacts(d, s);
    } else {
      OpensUnpending(d);
      OpensIs(d);
      QuietOutside(d, s, p, now);
    }
  }

  lemma QuietHeader(d: Disk, s: State, p: Plain)
    requires Quiet(d, s, p) && GoodHeader(s.mem.header)
    ensures d.leading == 2 && d.pages == s.disk.pages && GoodHeader(d.header) && d.header.signature == DB_SIGNATURE
    ensures d.header.recordSize == s.mem.header.recordSize && d.header.nextRecordId == s.mem.header.nextRecordId
  {
  }

  lemma QuietJournal(d: Disk, s: State, p: Plain)
    requires Represents(s, p) && Quiet(d, s, p) && d.index != BTree.NoHeader && d.header.journalPending
    requires GoodHeader(d.header) && d.header.recordSize == p.size
    ensures Recoverable(d, s, 0)
  {
    hide Redo, Full, GoodHeader, Operable;
    RepresentedFacts(s, p);
    FileBound(s);
    NothingGrown(s.disk.pages);
    if d.journal == Some([]) {
      NothingRedone(d);
    }
  }

  lemma QuietStart(s: State, p: Plain)
    requires Represents(s, p) && !p.mode.Stranded?
    ensures Quiet(s.disk, s, p) && s.disk.index != BTree.NoHeader && s.disk.index.Ready?
  {
    hide *;
    WholeParts(s, p);
    QuietStartIs(s, p);
  }

  lemma QuietStartIs(s: State, p: Plain)
    requires Represents(s, p) && !p.mode.Stranded? && s.disk.header == s.mem.header && s.disk.leading == 2
    requires s.disk.index.Ready?
    ensures Quiet(s.disk, s, p) && s.disk.index != BTree.NoHeader
  {
    hide Runs, NoneLost, SettledDisk, Operable, DirectoryOf, Singles, FreeAgrees;
  }

  /** UpdateFreePages, BeginTransaction and CommitTransaction. */
  lemma BracketsQuiet(s: State, p: Plain, k: nat)
    requires Represents(s, p) && !p.mode.Stranded? && |s.disk.pages| <= Allocator.MAX_PAGES
    ensures |UpdateFree(s).writes| == 1 && |Begin(s.mem).writes| == 2 == |Commit(s.mem).writes|
    ensures k <= 1 ==> QuietIndexed(ApplyAll(s.disk, UpdateFree(s).writes[..k]), s, p)
    ensures k <= 2 ==> QuietIndexed(ApplyAll(s.disk, Begin(s.mem).writes[..k]), s, p)
    ensures k <= 2 ==> QuietIndexed(ApplyAll(s.disk, Commit(s.mem).writes[..k]), s, p)
  {
    hide ApplyAll, Represents, Quiet, Allocator.Refilled;
    QuietStart(s, p);
    ApplyNone(s.disk);
    ApplyOne(s.disk, PutFree(Allocator.Refilled(s.disk.pages)));
    BeginEffect(s);
    CommitEffect(s);
    assert UpdateFree(s).writes[..1] == UpdateFree(s).writes;
    assert Begin(s.mem).writes[..2] == Begin(s.mem).writes;
    QuietVariants(s, p);
  }

  predicate QuietIndexed(d: Disk, s: State, p: Plain) {
    Quiet(d, s, p) && d.index != BTree.NoHeader
  }

  lemma QuietVariants(s: State, p: Plain)
    requires Quiet(s.disk, s, p) && s.disk.index != BTree.NoHeader
    ensures QuietIndexed(s.disk, s, p)
    ensures forall f :: QuietIndexed(s.disk.(free := f), s, p)
    ensures QuietIndexed(s.disk.(journal := Some([])), s, p)
    ensures forall j :: QuietIndexed(s.disk.(journal := j, header := s.mem.header.(journalPending := false)), s, p)
    ensures QuietIndexed(s.disk.(journal := Some([]), header := s.mem.header.(journalPending := true)), s, p)
    ensures QuietIndexed(s.disk.(header := s.mem.header.(journalPending := false)), s, p)
    ensures forall f :: f != BTree.NoHeader ==> QuietIndexed(s.disk.(index := f), s, p)
  {
  }

  /** RebuildIndex. */
  lemma RebuildQuiet(s: State, p: Plain, k: nat)
    requires Represents(s, p) && !p.mode.Stranded? && |s.disk.pages| <= Allocator.MAX_PAGES
    requires k <= |RebuildWrites(s.disk.pages)|
    ensures var d := ApplyAll(s.disk, RebuildWrites(s.disk.pages)[..k]);
      && (d.index == BTree.NoHeader <==> k == 2) && (k != 2 ==> QuietIndexed(d, s, p))
  {
    hide *;
    QuietStart(s, p);
    QuietVariants(s, p);
    IndexPrefix(s.disk, s.disk.pages, k);
  }

  /** Closing writes nothing that is not on disk already. */
  lemma CloseQuiet(s: State, p: Plain, k: nat)
    requires Represents(s, p) && k <= 3
    ensures |CloseWrites(s.mem)| == 3 && ApplyAll(s.disk, CloseWrites(s.mem)[..k]) == s.disk
  {
    hide *;
    WholeParts(s, p);
    FreeSame(s);
    CloseSteps(s);
  }

  lemma FreeSame(s: State)
    requires Coherent(s)
    ensures s.disk.free == s.mem.free
  {
    hide Operable, Runs;
  }

  lemma CloseSteps(s: State)
    requires s.disk.header == s.mem.header && s.disk.free == s.mem.free && s.disk.index.Ready?
    ensures |CloseWrites(s.mem)| == 3
    ensures forall k :: 0 <= k <= 3 ==> ApplyAll(s.disk, CloseWrites(s.mem)[..k]) == s.disk
  {
    hide ApplyAll;
    var ws := CloseWrites(s.mem);
    ApplyNone(s.disk);
    ApplyFirst(s.disk, ws, 1);
    ApplyFirst(s.disk, ws, 2);
    ApplyFirst(s.disk, ws, 3);
  }

  // ---- CompactDatabase ----

  lemma CompactDisk(s: State, now: int32, k: nat)
    requires Full(s) && !s.mem.header.journalPending
    requires |CompactFrom(s.disk.pages, PagesPer(s), 0)| <= Allocator.MAX_PAGES && 2 <= k <= |Compact(s, now).writes|
    ensures var d := ApplyAll(s.disk, Compact(s, now).writes[..k]);
      && d.leading == 2 && d.pages == CompactFrom(s.disk.pages, PagesPer(s), 0)
      && d.header == s.mem.header.(lastCompacted := d.header.lastCompacted) && (d.index == BTree.NoHeader <==> k == 5)
  {
    hide *;
    PartsOf(s);
    CompactEffect(s, now);
    HasIndex(s);
    HeaderNow(s, now);
    var ws, out := Compact(s, now).writes, CompactFrom(s.disk.pages, PagesPer(s), 0);
    if k >= 3 {
      CompactPrefix(s, now, k);
      var j := if k < |ws| then k - 3 else k - 4;
      IndexPrefix(ApplyAll(s.disk, ws[..3]), out, j);
      RebuildSize(out);
    }
  }

  lemma HasIndex(s: State)
    requires Coherent(s)
    ensures s.disk.index != BTree.NoHeader
  {
    hide Operable, Runs;
  }

  lemma HeaderNow(s: State, now: int32)
    requires |CompactFrom(s.disk.pages, PagesPer(s), 0)| <= Allocator.MAX_PAGES
    ensures Compact(s, now).mem.header == s.mem.header.(lastCompacted := now)
  {
    hide CompactFrom, RebuildWrites, Allocator.Refilled;
  }

  lemma CompactOutside(s: State, p: Plain, t: int32, k: nat, now: int32)
    requires Represents(s, p) && p.mode.Idle?
    requires |CompactFrom(s.disk.pages, PagesPer(s), 0)| <= Allocator.MAX_PAGES && k <= |Compact(s, t).writes|
    ensures var d := ApplyAll(s.disk, Compact(s, t).writes[..k]);
      && (Opens(d) <==> k !in {1, 5}) && (k !in {1, 5} ==> MendsTo(d, now, Still(p, p.records, p.next)))
  {
    hide *;
    WholeParts(s, p);
    AtRest(s, p);
    RestingFacts(s);
    CompactEffect(s, t);
    var d := ApplyAll(s.disk, Compact(s, t).writes[..k]);
    if k == 0 {
      QuietStart(s, p);
      QuietMends(d, s, p, now);
    } else if k == 1 {
      MissingFile(d);
      OpensIs(d);
    } else {
      CompactDisk(s, t, k);
      SameGood(s.mem.header, d.header);
      OpensUnpending(d);
      OpensIs(d);
      if k != 5 {
        CompactedFile(s);
        var out, n, dir := d.pages, PagesPer(s), MovedDirectory(s.disk.pages, Dir(s.disk));
        MovedIds(s.disk.pages, Dir(s.disk), p.next);
        MendableWhen(out, n, dir, p.next);
        PagesSalvage(d, p.size, p.next, dir, None);
        SalvageMends(d, p, p.next, p.records, dir, None, now);
      }
    }
  }

  lemma SameGood(a: DBHeader, b: DBHeader)
    requires GoodHeader(a) && b == a.(lastCompacted := b.lastCompacted)
    ensures GoodHeader(b) && b.recordSize == a.recordSize && b.nextRecordId == a.nextRecordId
    ensures b.journalPending == a.journalPending && b.signature == DB_SIGNATURE
  {
  }

  lemma MovedIds(pages: Store, dir: Directory, next: int32)
    requires (forall id :: id in dir ==> 0 <= dir[id] <= |pages|) && IdsBelow(dir, next) && next !in dir
    ensures IdsBelow(MovedDirectory(pages, dir), next) && next !in MovedDirectory(pages, dir)
    ensures |MovedDirectory(pages, dir)| == |dir|
  {
    hide Position;
    var moved := MovedDirectory(pages, dir);
    assert moved.Keys == dir.Keys;
    assert |moved| == |moved.Keys| && |dir| == |dir.Keys|;
  }

  // ---- Closing and opening ----

  /** A crash while the database is closed inside a transaction and recovers. */
  lemma ReopenMends(s: State, p: Plain, j: nat, now: int32)
    requires Represents(s, p) && p.mode.Journaled?
    ensures Replaying(s.disk) && Replayable(s.disk)
    ensures j <= RecoveryLength(s.disk) ==>
      var e := ApplyAll(s.disk, Replay(s.disk).writes[..j]);
      && (Opens(e) <==> j != RedoCount(s.disk) + 2)
      && (j != RedoCount(s.disk) + 2 ==> MendsTo(e, now, Still(p, p.records, p.next)))
  {
    hide *;
    WholeParts(s, p);
    Inside(s, p);
    SettledRecoverable(s);
    RecoverableReplaying(s.disk, s, 0);
    ReplayingReplays(s.disk);
    RecoveryCounts(s.disk);
    if j <= RecoveryLength(s.disk) {
      RecoveryInterrupted(s.disk, j);
      var e := ApplyAll(s.disk, Replay(s.disk).writes[..j]);
      if j == RedoCount(s.disk) + 2 {
        NoIndexFails(e);
      } else {
        RecoverableRecovers(s.disk, s, 0);
        RecoversFacts(s.disk, s);
        SameRecoversTo(e, s.disk, s);
        RecoversFacts(e, s);
        SameMemory(e, s.disk);
        IdsBelowNext(s);
        RecoveredMends(e, s, p, false, now);
        NotThere(p.records, p.next);
      }
    }
  }

  lemma NoIndexFails(e: Disk)
    requires e.index == BTree.NoHeader
    ensures !Opens(e)
  {
    hide Openable;
  }

  lemma SameMemory(e: Disk, d: Disk)
    requires Replaying(d) && SameRecovery(e, d) && Opens(e) && Opens(d)
    requires e.leading == 2 && e.header.journalPending ==> e.journal.None? || Replayable(e)
    requires d.leading == 2 && d.header.journalPending ==> d.journal.None? || Replayable(d)
    requires Open(e).Some? && Open(d).Some?
    ensures Reopened(e).mem == Reopened(d).mem
  {
    hide Replaying, Open, Reopened, Replayable;
    ReplayingReplays(d);
  }

  // ---- Every operation at every crash point ----

  /** The crash points at which a database still opens: all but the one between the removal of the data file and the
      renaming of the copy, and the one between the truncation of the index and the writing of its header. */
  predicate PointOpens(s: State, op: Op, k: nat) {
    match op
    case RebuildOp => k != 2
    case CompactOp(_) => k !in {1, 5}
    case ReopenOp => s.mem.journalOpen && Replayable(s.disk) ==> k != 3 + RedoCount(s.disk) + 2
    case _ => true
  }

  /** The operation is not a compaction inside a transaction or after one. */
  predicate Repairable(p: Plain, op: Op) {
    !p.mode.Stranded? && (op.CompactOp? ==> p.mode.Idle?)
  }

  /** When the crash comes after the last write of an addition it is complete. */
  lemma AddComplete(s: State, p: Plain, data: bytes, now: int32)
    requires Represents(s, p) && !p.mode.Stranded? && Allowed(p, AddOp(data)) && Operable(s) && Room(s)
    ensures var d := ApplyAll(s.disk, Add(s, data).writes);
      Opens(d) && MendsTo(d, now, Still(p, p.records[p.next := data], p.next + 1))
  {
    hide *;
    AddRefines(s, p, data);
    StepAdd(p, data);
    var p' := PlainStep(p, AddOp(data)).0;
    AfterIs(s, Add(s, data));
    QuietStart(After(s, Add(s, data)), p');
    QuietMends(ApplyAll(s.disk, Add(s, data).writes), After(s, Add(s, data)), p', now);
    SameStill(p, p', p.records[p.next := data], p.next + 1);
  }

  lemma StepAdd(p: Plain, data: bytes)
    requires Allowed(p, AddOp(data))
    ensures p.next < INT32_MAX
    ensures var p' := PlainStep(p, AddOp(data)).0;
      p'.size == p.size && p'.records == p.records[p.next := data] && p'.next == p.next + 1 && p'.mode == p.mode
  {
  }

  lemma SameStill(p: Plain, q: Plain, records: map<int32, bytes>, next: int32)
    ensures p.size == q.size ==> Still(p, records, next) == Still(q, records, next)
  {
  }

  lemma AddMends(s: State, p: Plain, data: bytes, k: nat, now: int32)
    requires Represents(s, p) && !p.mode.Stranded? && Allowed(p, AddOp(data)) && Operable(s) && Room(s)
    requires k <= |Add(s, data).writes|
    ensures var d := ApplyAll(s.disk, Add(s, data).writes[..k]);
      && Opens(d)
      && MendsTo(d, now,
                 if k == |Add(s, data).writes| then Still(p, p.records[p.next := data], p.next + 1)
                 else Still(p, p.records, p.next))
  {
    hide *;
    WholeParts(s, p);
    StepAdd(p, data);
    AllowedAdd(p, data);
    RepresentedFacts(s, p);
    var ws := Add(s, data).writes;
    if k == |ws| {
      assert ws[..k] == ws;
      AddComplete(s, p, data, now);
    } else if p.mode.Journaled? {
      Inside(s, p);
      ReadyIs(s, Insert(data));
      ChangeMends(s, p, Insert(data), k, now);
      InsideInsertLess(s, data, EntriesBy(s, Insert(data), k));
      NotThere(p.records, p.next);
      EnteredLess(p.records, p.next, data);
      MendsOpen(ApplyAll(s.disk, ws[..k]), now, Still(p, p.records, p.next));
    } else {
      NotJournaled(p);
      AddOutside(s, p, data, k, now);
      MendsOpen(ApplyAll(s.disk, ws[..k]), now, Still(p, p.records, p.next));
    }
  }

  lemma NotJournaled(p: Plain)
    ensures !p.mode.Stranded? && !p.mode.Journaled? ==> p.mode.Idle?
  {
  }

  lemma MendsOpen(d: Disk, now: int32, p: Plain)
    requires MendsTo(d, now, p)
    ensures Opens(d)
  {
    hide Represents, Opens, Operable, CompactFrom;
  }

  lemma ReadyIs(s: State, c: Change)
    requires Coherent(s)
    requires match c
      case Insert(data) => |data| == s.mem.header.recordSize && Room(s) && |Entries(s.disk)| < MAX_RECORDS
      case Replace(_, data) => |data| == s.mem.header.recordSize
      case Erase(_) => true
    ensures Ready(s, c)
    ensures match c
      case Insert(data) => Run(s, c) == Add(s, data)
      case Replace(id, data) => Run(s, c) == Update(s, id, data)
      case Erase(id) => Run(s, c) == Delete(s, id)
  {
    hide Coherent, Add, Update, Delete, Room;
  }

  lemma InsideInsertLess(s: State, data: bytes, m: nat)
    requires Coherent(s) && Room(s) && |Entries(s.disk)| < MAX_RECORDS && |data| == s.mem.header.recordSize
    ensures Ready(s, Insert(data)) && Journals(s, Insert(data))
    ensures InsideData(s, Insert(data), m) in {Data(s), Data(s)[s.mem.header.nextRecordId := data]}
  {
    hide Coherent, Data, Room;
    PartsOf(s);
  }

  lemma EnteredLess(records: map<int32, bytes>, id: int32, data: bytes)
    requires id !in records
    ensures records[id := data] - {id} == records
  {
  }

  lemma UpdateMends(s: State, p: Plain, id: int32, data: bytes, k: nat, now: int32)
    requires Represents(s, p) && !p.mode.Stranded? && |data| == p.size && id in p.records && Operable(s)
    requires k <= |Update(s, id, data).writes|
    ensures |p.records[id]| == |data|
    ensures var d := ApplyAll(s.disk, Update(s, id, data).writes[..k]);
      && Opens(d)
      && MendsTo(d, now,
         Still(p, p.records[id := Mixed(p.records[id], data, if k < PagesPer(s) then k else PagesPer(s))], p.next))
  {
    hide *;
    WholeParts(s, p);
    PartsOf(s);
    var ws, m := Update(s, id, data).writes, if k < PagesPer(s) then k else PagesPer(s);
    var d, p' := ApplyAll(s.disk, ws[..k]), Still(p, p.records[id := Mixed(p.records[id], data, m)], p.next);
    if p.mode.Idle? {
      AtRest(s, p);
      UpdateCut(s, id, data, k);
      UpdateOutside(s, p, id, data, k, now);
    } else {
      NotJournaled(p);
      Inside(s, p);
      UpdateWrites(s, id, data);
      ReadyIs(s, Replace(id, data));
      if k < |ws| {
        ChangeMends(s, p, Replace(id, data), k, now);
        EntriesOfChange(s, Replace(id, data), k);
        InsideMixed(s, id, data, m);
      } else {
        assert ws[..k] == ws;
        ReplaceWhole(s, p, id, data, now);
      }
      NotThere(p.records[id := Mixed(p.records[id], data, m)], p.next);
    }
    MendsOpen(d, now, p');
  }

  lemma EntriesOfChange(s: State, c: Change, k: nat)
    requires InTransaction(s) && Ready(s, c) && !c.Insert?
    ensures EntriesBy(s, c, k) == if k < PagesPer(s) then k else PagesPer(s)
  {
    hide InTransaction, Coherent;
  }

  lemma InsideMixed(s: State, id: int32, data: bytes, m: nat)
    requires Coherent(s) && |data| == s.mem.header.recordSize && id in Dir(s.disk)
    ensures Ready(s, Replace(id, data)) && Journals(s, Replace(id, data)) && id in Data(s) && |Data(s)[id]| == |data|
    ensures InsideData(s, Replace(id, data), m) == Data(s)[id := Mixed(Data(s)[id], data, m)]
  {
    hide Mixed, Coherent, Data;
    PartsOf(s);
    RecordSize(s, id);
    if m == 0 {
      MixedNone(Data(s)[id], data);
    }
  }

  lemma MixedNone(was: bytes, data: bytes)
    requires |was| == |data|
    ensures Mixed(was, data, 0) == was
  {
  }

  lemma ReplaceWhole(s: State, p: Plain, id: int32, data: bytes, now: int32)
    requires Represents(s, p) && p.mode.Journaled? && |data| == p.size && id in p.records && Operable(s)
    ensures |p.records[id]| == |data|
    ensures MendsTo(ApplyAll(s.disk, Update(s, id, data).writes), now,
                    Still(p, p.records[id := Mixed(p.records[id], data, PagesPer(s))], p.next))
  {
    hide *;
    WholeParts(s, p);
    PagesEnough(s);
    MixedAll(p.records[id], data, PagesPer(s));
    UpdateRefines(s, p, id, data);
    StepUpdate(p, id, data);
    var p' := PlainStep(p, UpdateOp(id, data)).0;
    AfterIs(s, Update(s, id, data));
    QuietStart(After(s, Update(s, id, data)), p');
    QuietMends(ApplyAll(s.disk, Update(s, id, data).writes), After(s, Update(s, id, data)), p', now);
    SameStill(p, p', p.records[id := data], p.next);
  }

  lemma StepUpdate(p: Plain, id: int32, data: bytes)
    requires |data| == p.size && id in p.records
    ensures Allowed(p, UpdateOp(id, data))
    ensures PlainStep(p, UpdateOp(id, data)).0 == p.(records := p.records[id := data])
  {
  }

  lemma DeletionMends(s: State, p: Plain, id: int32, k: nat, now: int32)
    requires Represents(s, p) && !p.mode.Stranded? && id in p.records && Operable(s)
    requires k <= |Delete(s, id).writes|
    ensures var d := ApplyAll(s.disk, Delete(s, id).writes[..k]);
      Opens(d) && MendsTo(d, now, Still(p, if k == 0 then p.records else p.records - {id}, p.next))
  {
    hide *;
    WholeParts(s, p);
    PartsOf(s);
    var ws := Delete(s, id).writes;
    var d, records := ApplyAll(s.disk, ws[..k]), if k == 0 then p.records else p.records - {id};
    if k == 0 {
      ApplyNone(s.disk);
      assert ws[..0] == [];
      QuietStart(s, p);
      QuietMends(s.disk, s, p, now);
    } else if p.mode.Idle? {
      DeleteOutside(s, p, id, k, now);
    } else {
      NotJournaled(p);
      Inside(s, p);
      ReadyIs(s, Erase(id));
      if k < |ws| {
        ChangeMends(s, p, Erase(id), k, now);
        EntriesOfChange(s, Erase(id), k);
        InsideErase(s, id, if k < PagesPer(s) then k else PagesPer(s));
      } else {
        assert ws[..k] == ws;
        EraseWhole(s, p, id, now);
      }
      NotThere(p.records - {id}, p.next);
    }
    MendsOpen(d, now, Still(p, records, p.next));
  }

  lemma EraseWhole(s: State, p: Plain, id: int32, now: int32)
    requires Represents(s, p) && p.mode.Journaled? && id in p.records && Operable(s)
    ensures MendsTo(ApplyAll(s.disk, Delete(s, id).writes), now, Still(p, p.records - {id}, p.next))
  {
    hide *;
    WholeParts(s, p);
    DeleteRefines(s, p, id);
    StepErase(p, id);
    var p' := PlainStep(p, DeleteOp(id)).0;
    AfterIs(s, Delete(s, id));
    QuietStart(After(s, Delete(s, id)), p');
    QuietMends(ApplyAll(s.disk, Delete(s, id).writes), After(s, Delete(s, id)), p', now);
    SameStill(p, p', p.records - {id}, p.next);
  }

  lemma StepErase(p: Plain, id: int32)
    requires id in p.records
    ensures Allowed(p, DeleteOp(id)) && PlainStep(p, DeleteOp(id)).0 == p.(records := p.records - {id})
  {
  }

  /** What the operations write when the record exists or not. */
  lemma NoRecord(s: State, p: Plain, id: int32, data: bytes)
    requires Represents(s, p) && id !in p.records
    ensures Operable(s) && Update(s, id, data).writes == [] == Delete(s, id).writes
  {
    hide *;
    WholeParts(s, p);
    CoherentOperable(s);
    PartsOf(s);
    UpdateIs(s, id, data);
    DeleteIs(s, id);
  }

  lemma WritesOf(s: State, op: Op)
    requires Coherent(s) && Enabled(s, op)
    ensures match op
      case AddOp(data) => Operable(s) && Room(s) && OpWrites(s, op) == Add(s, data).writes
      case UpdateOp(id, data) => Operable(s) && OpWrites(s, op) == Update(s, id, data).writes
      case DeleteOp(id) => Operable(s) && OpWrites(s, op) == Delete(s, id).writes
      case FindOp(_) => OpWrites(s, op) == []
      case UpdateFreeOp => |s.disk.pages| <= Allocator.MAX_PAGES && OpWrites(s, op) == UpdateFree(s).writes
      case RebuildOp => |s.disk.pages| <= Allocator.MAX_PAGES && OpWrites(s, op) == RebuildWrites(s.disk.pages)
      case CompactOp(t) =>
        |CompactFrom(s.disk.pages, PagesPer(s), 0)| <= Allocator.MAX_PAGES && OpWrites(s, op) == Compact(s, t).writes
      case BeginOp => OpWrites(s, op) == Begin(s.mem).writes
      case CommitOp => OpWrites(s, op) == Commit(s.mem).writes
      case ReopenOp => Opens(Closed(s)) && Openable(Closed(s)) && Open(Closed(s)).Some?
    ensures forall k | 0 <= k <= |OpWrites(s, op)| :: CrashDisk(s, op, k) == ApplyAll(s.disk, OpWrites(s, op)[..k])
  {
    hide Operable, Room, Runs, Add, Delete, UpdateFree, Begin, ApplyAll, Update, Compact, Commit, Open, CompactFrom,
      RebuildWrites, Closed, Openable;
  }

  lemma ReopenWrites(s: State)
    requires Coherent(s) && Enabled(s, ReopenOp)
    ensures (Closed(s).leading == 2 && Closed(s).header.journalPending ==>
               Closed(s).journal.None? || Replayable(Closed(s)))
      && Open(Closed(s)).Some?
    ensures OpWrites(s, ReopenOp) == CloseWrites(s.mem) + Open(Closed(s)).value.writes
  {
    hide Operable, Runs, Open, Closed, Replayable;
  }

  lemma ReopenDisk(s: State, p: Plain, k: nat, now: int32)
    requires Represents(s, p) && !p.mode.Stranded? && Enabled(s, ReopenOp) && k <= |OpWrites(s, ReopenOp)|
    ensures var d := CrashDisk(s, ReopenOp, k);
      && (Opens(d) <==> PointOpens(s, ReopenOp, k)) && (Opens(d) ==> MendsTo(d, now, Still(p, p.records, p.next)))
  {
    hide *;
    WholeParts(s, p);
    WritesOf(s, ReopenOp);
    ReopenWrites(s);
    ClosedWrites(s);
    CloseQuiet(s, p, 3);
    var cs, d := CloseWrites(s.mem), CrashDisk(s, ReopenOp, k);
    assert cs[..3] == cs;
    OpenSides(s, p);
    PointReopens(s, k);
    if k <= 3 {
      assert OpWrites(s, ReopenOp)[..k] == cs[..k];
      CloseQuiet(s, p, k);
      QuietStart(s, p);
      QuietMends(d, s, p, now);
    } else {
      var j := k - 3;
      NotIdle(p);
      ReopenMends(s, p, j, now);
      ReplayingReplays(s.disk);
      RecoveryCounts(s.disk);
      assert OpWrites(s, ReopenOp)[..k] == cs + Replay(s.disk).writes[..j];
      ApplyConcat(s.disk, cs, Replay(s.disk).writes[..j]);
    }
  }

  lemma NotIdle(p: Plain)
    ensures !p.mode.Stranded? && !p.mode.Idle? ==> p.mode.Journaled?
  {
  }

  lemma ClosedWrites(s: State)
    ensures Closed(s) == ApplyAll(s.disk, CloseWrites(s.mem))
  {
  }

  /** Opening writes something only after a transaction. */
  lemma OpenSides(s: State, p: Plain)
    requires Represents(s, p)
    ensures p.mode.Idle? <==> !s.mem.journalOpen
    ensures p.mode.Idle? ==> Openable(s.disk) && (Open(s.disk).Some? ==> Open(s.disk).value.writes == [])
    ensures s.disk.header.journalPending == s.mem.journalOpen
  {
    hide Runs, NoneLost, SettledDisk, Operable, DirectoryOf, Singles, FreeAgrees, Replayable, Replay;
  }

  lemma PointReopens(s: State, k: nat)
    ensures PointOpens(s, ReopenOp, k) <==>
      (s.mem.journalOpen && Replayable(s.disk) ==> k != 3 + RedoCount(s.disk) + 2)
  {
    hide Replayable;
  }

  predicate Sized(p: Plain) {
    forall id :: id in p.records ==> |p.records[id]| == p.size
  }

  lemma SizedIs(p: Plain)
    ensures Sized(p) <==> forall id :: id in p.records ==> |p.records[id]| == p.size
  {
  }

  /** The plain map after a crash in an operation, of which that part is left, once the database is mended. */
  function Salvaged(p: Plain, op: Op, part: nat): Plain
    requires Allowed(p, op) && Sized(p)
  {
    match op
    case AddOp(data) =>
      if part == 0 then Still(p, p.records, p.next) else Still(p, p.records[p.next := data], p.next + 1)
    case UpdateOp(id, data) =>
      Still(p, if id in p.records then p.records[id := Mixed(p.records[id], data, part)] else p.records, p.next)
    case DeleteOp(id) => Still(p, if part == 0 then p.records else p.records - {id}, p.next)
    case _ => Still(p, p.records, p.next)
  }

  /** After a crash at any write of any operation the database opens, but for the points named by PointOpens. Whenever
      it opens it can be mended: then it represents the plain map again, with an addition undone unless all of its
      writes were there, a deletion done once it has begun, and an updated record with the new data in as many of its
      pages as were journaled or, outside a transaction, written. */
  lemma AnyPoint(s: State, p: Plain, op: Op, k: nat, now: int32)
    requires Represents(s, p) && Allowed(p, op) && Repairable(p, op)
    ensures Coherent(s) && Enabled(s, op) && Sized(p)
    ensures k <= |OpWrites(s, op)| ==>
      var d := CrashDisk(s, op, k);
      (Opens(d) <==> PointOpens(s, op, k)) && (Opens(d) ==> MendsTo(d, now, Salvaged(p, op, Part(s, op, k))))
  {
    hide *;
    WholeParts(s, p);
    StepRefines(s, p, op);
    RepairableIs(p, op);
    SizedIs(p);
    if k <= |OpWrites(s, op)| {
      WritesOf(s, op);
      PartIs(s, op, k);
      SalvagedIs(p, op, Part(s, op, k));
      PointIs(s, op, k);
      match op {
        case AddOp(data) => AddMends(s, p, data, k, now);
        case UpdateOp(id, data) =>
          UpdateSize(p, id, data);
          if id in p.records {
            UpdateMends(s, p, id, data, k, now);
          } else {
            NoRecord(s, p, id, data);
            NothingDone(s, p, op, k, now);
          }
        case DeleteOp(id) =>
          if id in p.records {
            DeletionMends(s, p, id, k, now);
          } else {
            var none: bytes := Zeros(0);
            NoRecord(s, p, id, none);
            NothingDone(s, p, op, k, now);
            NotThere(p.records, id);
          }
        case FindOp(_) => NothingDone(s, p, op, k, now);
        case UpdateFreeOp =>
          BracketsQuiet(s, p, k);
          QuietDone(CrashDisk(s, op, k), s, p, now);
        case RebuildOp =>
          RebuildQuiet(s, p, k);
          if k != 2 {
            QuietDone(CrashDisk(s, op, k), s, p, now);
          } else {
            NoIndexFails(CrashDisk(s, op, k));
          }
        case CompactOp(t) => CompactOutside(s, p, t, k, now);
        case BeginOp =>
          BracketsQuiet(s, p, k);
          QuietDone(CrashDisk(s, op, k), s, p, now);
        case CommitOp =>
          BracketsQuiet(s, p, k);
          QuietDone(CrashDisk(s, op, k), s, p, now);
        case ReopenOp => ReopenDisk(s, p, k, now);
      }
    }
  }

  lemma UpdateSize(p: Plain, id: int32, data: bytes)
    requires Allowed(p, UpdateOp(id, data))
    ensures |data| == p.size
  {
  }

  lemma RepairableIs(p: Plain, op: Op)
    requires Repairable(p, op)
    ensures !p.mode.Stranded? && (op.CompactOp? ==> p.mode.Idle?)
  {
  }

  lemma QuietDone(d: Disk, s: State, p: Plain, now: int32)
    requires Represents(s, p) && QuietIndexed(d, s, p)
    ensures Opens(d) && MendsTo(d, now, Still(p, p.records, p.next))
  {
    hide Represents, Quiet, MendsTo, Opens;
    QuietMends(d, s, p, now);
  }

  lemma NothingDone(s: State, p: Plain, op: Op, k: nat, now: int32)
    requires Represents(s, p) && !p.mode.Stranded? && Enabled(s, op) && OpWrites(s, op) == [] && k == 0
    ensures var d := CrashDisk(s, op, k); Opens(d) && MendsTo(d, now, Still(p, p.records, p.next))
  {
    hide *;
    WholeParts(s, p);
    WritesOf(s, op);
    ApplyNone(s.disk);
    QuietStart(s, p);
    QuietMends(s.disk, s, p, now);
  }

  lemma PartIs(s: State, op: Op, k: nat)
    requires Coherent(s) && Enabled(s, op)
    ensures match op
      case AddOp(_) => Part(s, op, k) == if k == |OpWrites(s, op)| then 1 else 0
      case UpdateOp(_, _) => Part(s, op, k) == if k < PagesPer(s) then k else PagesPer(s)
      case DeleteOp(_) => Part(s, op, k) == if k == 0 then 0 else 1
      case _ => Part(s, op, k) == 0
  {
    hide Coherent, OpWrites, PagesPer, Enabled;
  }

  lemma SalvagedIs(p: Plain, op: Op, part: nat)
    requires Allowed(p, op) && Sized(p)
    ensures match op
      case AddOp(data) =>
        p.next < INT32_MAX
        && Salvaged(p, op, part)
           == if part == 0 then Still(p, p.records, p.next) else Still(p, p.records[p.next := data], p.next + 1)
      case UpdateOp(id, data) =>
        |data| == p.size
        && Salvaged(p, op, part)
           == Still(p, if id in p.records then p.records[id := Mixed(p.records[id], data, part)] else p.records, p.next)
      case DeleteOp(id) => Salvaged(p, op, part) == Still(p, if part == 0 then p.records else p.records - {id}, p.next)
      case _ => Salvaged(p, op, part) == Still(p, p.records, p.next)
  {
    hide Mixed, Still;
  }

  lemma PointIs(s: State, op: Op, k: nat)
    ensures match op
      case RebuildOp => PointOpens(s, op, k) <==> k != 2
      case CompactOp(_) => PointOpens(s, op, k) <==> k !in {1, 5}
      case ReopenOp => true
      case _ => PointOpens(s, op, k)
  {
  }

  // ---- A compaction inside a transaction ----

  /** The state after a deletion, and after a compaction that follows it. */
  function Deleted(b: State, id: int32): State
    requires Operable(b)
  {
    After(b, Delete(b, id))
  }

  /** The deletion that begins a transaction. */
  lemma DeletedInside(b: State, id: int32)
    requires InTransaction(b) && b.disk.journal == Some([]) && Indexed(b.disk) && id in Dir(b.disk)
    ensures Operable(b) && InTransaction(Deleted(b, id)) && Full(Deleted(b, id)) && Coherent(Deleted(b, id))
    ensures Coherent(b) && Data(Deleted(b, id)) == Data(b) - {id} && PagesPer(Deleted(b, id)) == PagesPer(b)
    ensures Indexed(Deleted(b, id).disk) && Dir(Deleted(b, id).disk) == Dir(b.disk) - {id}
    ensures 0 <= Dir(b.disk)[id] && Dir(b.disk)[id] + PagesPer(b) <= 0x7FFF_FFFD
    ensures Deleted(b, id).disk.journal == Some(EraseEntries(Dir(b.disk)[id] + 2, id, PagesPer(b)))
  {
    hide *;
    JournaledIn(b);
    CoherentOperable(b);
    DeletedIs(b, id);
    ReadyIs(b, Erase(id));
    OperationKeeps(b, Erase(id));
    TransactionFacts(Deleted(b, id));
    FullFacts(Deleted(b, id));
    PartsOf(b);
    DeleteKeeps(b, id);
    DeleteEffect(b, id);
    ErasedJournal(b, id);
  }

  lemma DeletedIs(b: State, id: int32)
    requires Operable(b)
    ensures Deleted(b, id) == After(b, Delete(b, id))
  {
    hide Operable, Delete, ApplyAll;
  }

  lemma ErasedJournal(b: State, id: int32)
    requires InTransaction(b) && b.disk.journal == Some([]) && Indexed(b.disk) && id in Dir(b.disk) && Operable(b)
    requires 0 <= Dir(b.disk)[id] && Dir(b.disk)[id] + PagesPer(b) <= 0x7FFF_FFFD
    ensures Deleted(b, id).disk.journal == Some(EraseEntries(Dir(b.disk)[id] + 2, id, PagesPer(b)))
    ensures Indexed(Deleted(b, id).disk) && Dir(Deleted(b, id).disk) == Dir(b.disk) - {id}
  {
    hide ApplyAll, EraseEntries, WithoutRun, Runs, NoneLost, DirectoryOf, Singles, FreeAgrees, Settled, Leaf.Deleted,
      Delete, IdsBelow, Operable;
    JournaledIn(b);
    DeleteEffect(b, id);
    Remove(Entries(b.disk), id);
    var es := EraseEntries(Dir(b.disk)[id] + 2, id, PagesPer(b));
    assert [] + es == es;
  }

  lemma EmptiesLength(n: nat)
    ensures |Empties(n)| == n
  {
  }

  lemma ReplaysOver(es: seq<DBJournalEntry>, slot: nat, images: Store, x: Store)
    requires ReplaysAs(es, slot, images) && slot + |images| <= |x|
    ensures Redo(es, x) == Overwrite(x, slot, images)
  {
    hide Redo, Overwrite, Named;
  }

  /** What closing leaves on disk after the compaction. */
  lemma StrandedDisk(s: State, now: int32)
    requires InTransaction(s) && |CompactFrom(s.disk.pages, PagesPer(s), 0)| <= Allocator.MAX_PAGES
    requires Full(After(s, Compact(s, now)))
    ensures var e := Closed(After(s, Compact(s, now)));
      && e.leading == 2 && e.header.journalPending && GoodHeader(e.header) && e.index != BTree.NoHeader
      && e.pages == CompactFrom(s.disk.pages, PagesPer(s), 0) && e.journal == s.disk.journal
  {
    hide Runs, NoneLost, DirectoryOf, Singles, FreeAgrees, Settled, ApplyAll, CompactFrom, Compact, Allocator.Refilled,
      Scanned, LeafOf, RebuildWrites, Operable;
    CompactEffect(s, now);
    CloseEffect(After(s, Compact(s, now)));
  }

  lemma NoStartLeft(out: Store, moved: Directory, x: int32, t: nat, n: nat)
    requires n >= 1 && Starts(out, moved) && x in moved && moved[x] == t && t + n <= |out| <= Allocator.MAX_PAGES
    ensures |Overwrite(out, t, Empties(n))| <= Allocator.MAX_PAGES
    ensures ScanStart(Overwrite(out, t, Empties(n)), x) == None
  {
    hide Overwrite, ScanStart;
    var pages := Overwrite(out, t, Empties(n));
    forall s | 0 <= s < |pages| ensures pages[s].status != PS_ACTIVE || pages[s].id != x {
      if !(t <= s < t + n) {
        assert pages[s] == out[s];
      }
    }
    NoStart(pages, x);
  }

  /** Compaction moves the record to slot `t`. */
  predicate MovesTo(d: Disk, x: int32, t: nat) {
    && Indexed(d) && x in Dir(d) && 0 <= Dir(d)[x] <= |d.pages| && Position(d.pages, Dir(d)[x]) == t
  }

  lemma MovesToIs(d: Disk, x: int32, t: nat)
    ensures MovesTo(d, x, t) <==>
      Indexed(d) && x in Dir(d) && 0 <= Dir(d)[x] <= |d.pages| && Position(d.pages, Dir(d)[x]) == t
  {
    hide Indexed, Dir, Position;
  }

  /** The journal holds the deletion of a run at slot `t` and nothing else. */
  predicate OneErasure(d: Disk, id: int32, t: nat, n: nat) {
    t + n <= 0x7FFF_FFFD && d.journal == Some(EraseEntries(t + 2, id, n))
  }

  lemma OneErasureIs(d: Disk, id: int32, t: nat, n: nat)
    ensures OneErasure(d, id, t, n) <==> t + n <= 0x7FFF_FFFD && d.journal == Some(EraseEntries(t + 2, id, n))
  {
    hide EraseEntries;
  }

  /** A journal with the deletion of the run at slot `t`, over a compacted file in which another record is there. */
  lemma StrandedReads(s: State, id: int32, x: int32, t: nat, now: int32)
    requires MovesTo(s.disk, x, t) && OneErasure(s.disk, id, t, PagesPer(s)) && InTransaction(s) && Full(s)
    requires |CompactFrom(s.disk.pages, PagesPer(s), 0)| <= Allocator.MAX_PAGES && Full(After(s, Compact(s, now)))
    ensures Missing(Closed(After(s, Compact(s, now))), x)
  {
    hide *;
    CompactedFile(s);
    MovesToIs(s.disk, x, t);
    OneErasureIs(s.disk, id, t, PagesPer(s));
    var n, out, moved := PagesPer(s), CompactFrom(s.disk.pages, PagesPer(s), 0),
      MovedDirectory(s.disk.pages, Dir(s.disk));
    MovedTo(s.disk.pages, Dir(s.disk), x);
    RunInFile(out, n, moved, x);
    StrandedDisk(s, now);
    var e := Closed(After(s, Compact(s, now)));
    EraseEntriesReplay(t + 2, id, n);
    EmptiesLength(n);
    ReplaysOver(EraseEntries(t + 2, id, n), t, Empties(n), out);
    RedoneIs(e);
    OverwriteLength(out, t, Empties(n));
    ReplayableIs(e);
    RecoveryReads(e);
    OpensIs(e);
    NoStartLeft(out, moved, x, t, n);
    ReadScannedIs(Redone(e), e.header.recordSize, x);
    MissingIs(e, x);
  }

  /** The database opens, and a lookup of the id fails. */
  predicate Missing(e: Disk, x: int32) {
    Opens(e) && FindRecord(Reopened(e), x) == None
  }

  lemma MissingIs(e: Disk, x: int32)
    requires Opens(e) && (e.leading == 2 && e.header.journalPending ==> e.journal.None? || Replayable(e))
    requires Open(e).Some? && FindRecord(Reopened(e), x) == None
    ensures Missing(e, x)
  {
    hide Open, Reopened, Replayable, FindRecord;
  }

  /** Why a transaction in which the file was compacted must be committed before the database is closed: opening replays
      the journal over the page numbers of the old file. Here it holds one deletion, and a record that has moved to the
      deleted one's place, and that no operation touched, is found until then and gone afterwards. */
  lemma StrandedLoses(b: State, id: int32, x: int32, now: int32)
    requires InTransaction(b) && b.disk.journal == Some([]) && Indexed(b.disk)
    requires id in Dir(b.disk) && x in Dir(b.disk) && x != id
    ensures Operable(b)
    ensures var s := Deleted(b, id);
      && |CompactFrom(s.disk.pages, PagesPer(s), 0)| <= Allocator.MAX_PAGES
      && FindRecord(After(s, Compact(s, now)), x) == FindRecord(b, x) != None && 0 <= Dir(b.disk)[id]
      && (MovesTo(s.disk, x, Dir(b.disk)[id]) ==> Missing(Closed(After(s, Compact(s, now))), x))
  {
    hide *;
    DeletedInside(b, id);
    var s := Deleted(b, id);
    CompactKeeps(s, now);
    PartsOf(b);
    PartsOf(s);
    FullFacts(After(s, Compact(s, now)));
    FindsRecords(After(s, Compact(s, now)), x);
    FindsRecords(b, x);
    OneErasureIs(s.disk, id, Dir(b.disk)[id], PagesPer(s));
    if MovesTo(s.disk, x, Dir(b.disk)[id]) {
      StrandedReads(s, id, x, Dir(b.disk)[id], now);
    }
  }
}
