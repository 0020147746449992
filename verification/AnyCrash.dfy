/** Crashes in transactions with records of any size: what is read after a crash at any write. */
module AnyCrash {
  import opened Words
  import opened DbTypes
  import opened Pages
  import opened Disk
  import opened Directories
  import opened Engine
  import opened Refinement
  import opened Journal
  import opened Recovery
  import opened Crash
  import opened Transactions
  import opened Restarts
  import opened Torn
  import opened Anchors
  import Allocator
  import BTree

  // ---- What a crash leaves ----

  /** The records when `m` of the operation's journal entries are on disk: an addition counts from its last entry on, a
      deletion from its first, and an update piece by piece. */
  function InsideData(s: State, c: Change, m: nat): map<int32, bytes>
    requires Coherent(s) && Ready(s, c) && Journals(s, c)
  {
    PartsOf(s);
    if m == 0 then Data(s)
    else
      match c
      case Insert(data) => if m < PagesPer(s) then Data(s) else Data(s)[s.mem.header.nextRecordId := data]
      case Replace(id, data) => RecordSize(s, id); Data(s)[id := Mixed(Data(s)[id], data, m)]
      case Erase(id) => Data(s) - {id}
  }

  lemma RecordSize(s: State, id: int32)
    requires Coherent(s) && id in Data(s)
    ensures |Data(s)[id]| == s.mem.header.recordSize
  {
    hide Content, HeadersAgree, FreeAgrees;
  }

  /** The records after a crash that lets the first `k` writes of the sequence reach the disk. */
  function CrashedData(s: State, cs: seq<Change>, k: nat): map<int32, bytes>
    requires InTransaction(s) && AllReady(s, cs)
    decreases |cs|
  {
    if cs == [] then Data(s)
    else
      OperationKeeps(s, cs[0]);
      var ws := Run(s, cs[0]).writes;
      if k < |ws| then InsideData(s, cs[0], EntriesBy(s, cs[0], k))
      else CrashedData(After(s, Run(s, cs[0])), cs[1..], k - |ws|)
  }

  /** The crash comes inside an addition, after its first journal entry and before its header write. */
  predicate Unfinished(s: State, cs: seq<Change>, k: nat)
    requires InTransaction(s) && AllReady(s, cs)
    decreases |cs|
  {
    cs != [] &&
    (OperationKeeps(s, cs[0]);
     var ws := Run(s, cs[0]).writes;
     if k < |ws| then cs[0].Insert? && EntriesBy(s, cs[0], k) > 0
     else Unfinished(After(s, Run(s, cs[0])), cs[1..], k - |ws|))
  }

  /** Lookups in the database are lookups in the map. */
  predicate ReadsAs(r: State, data: map<int32, bytes>) {
    forall id :: FindRecord(r, id) == if id in data then Some(data[id]) else None
  }

  /** Opening the disk gives an anchored database that reads as the map; its next id is a key exactly when `used`. */
  predicate RecoversAs(d: Disk, data: map<int32, bytes>, used: bool) {
    && Opens(d)
    && var r := Reopened(d);
    && Anchored(r) && Indexed(r.disk) && ReadsAs(r, data) && (IsKey(r, r.mem.header.nextRecordId) <==> used)
  }

  // ---- A crash at the end of an operation ----

  lemma CoherentRecovers(d: Disk, data: map<int32, bytes>, used: bool)
    requires Opens(d) && Coherent(Reopened(d)) && Data(Reopened(d)) == data
    requires Reopened(d).mem.header.nextRecordId in data <==> used
    ensures RecoversAs(d, data, used)
  {
    hide Coherent, Open, Reopened, Anchored, Data, Replayable;
    var r := Reopened(d);
    CoherentAnchored(r);
    PartsOf(r);
    forall id ensures FindRecord(r, id) == if id in data then Some(data[id]) else None {
      FindsRecords(r, id);
    }
  }

  lemma BoundaryRecovers(d: Disk, reached: State, grown: nat, stale: bool)
    requires Full(reached) && CrashesTo(d, reached, grown, stale)
    ensures RecoversAs(d, Data(reached), stale)
  {
    hide *;
    FullFacts(reached);
    CrashesToRecovers(d, reached, grown, stale);
    RecoveredIds(d, reached, stale);
    CoherentRecovers(d, Data(reached), stale);
  }

  lemma RecoveredIds(d: Disk, reached: State, stale: bool)
    requires Coherent(reached) && RecoversTo(d, reached)
    ensures Opens(d) && Coherent(Reopened(d)) && Data(Reopened(d)) == Data(reached)
    ensures IdsUpTo(Data(Reopened(d)), Reopened(d).mem.header.nextRecordId, stale) ==>
      (Reopened(d).mem.header.nextRecordId in Data(reached) <==> stale)
  {
    hide Coherent, Data, Reopened, Open, Replayable, NoneLost;
  }

  /** The records after the whole operation. */
  lemma WholeOperation(s: State, c: Change)
    requires InTransaction(s) && Ready(s, c) && Journals(s, c)
    ensures Full(After(s, Run(s, c))) && Data(After(s, Run(s, c))) == InsideData(s, c, PagesPer(s))
  {
    hide *;
    TransactionFacts(s);
    FullFacts(s);
    FullOperation(s, c);
    OperationIs(s, c);
    match c {
      case Insert(data) =>
        AddKeepsCore(s, data);
        InsideWhole(s, data);
      case Replace(id, data) =>
        UpdateKeeps(s, id, data);
        InsideReplace(s, id, data, PagesPer(s));
        PagesEnough(s);
        MixedAll(Data(s)[id], data, PagesPer(s));
      case Erase(id) =>
        DeleteKeeps(s, id);
        InsideErase(s, id, PagesPer(s));
    }
  }

  lemma OperationIs(s: State, c: Change)
    requires Coherent(s) && Ready(s, c) && Journals(s, c)
    ensures match c
      case Insert(data) =>
        Room(s) && |Entries(s.disk)| < MAX_RECORDS && |data| == s.mem.header.recordSize && Run(s, c) == Add(s, data)
      case Replace(id, data) =>
        |data| == s.mem.header.recordSize && id in Dir(s.disk) && Run(s, c) == Update(s, id, data)
      case Erase(id) => id in Dir(s.disk) && Run(s, c) == Delete(s, id)
  {
    hide Coherent, Add, Update, Delete, Room, Dir;
  }

  lemma InsideWhole(s: State, data: bytes)
    requires Coherent(s) && Room(s) && |Entries(s.disk)| < MAX_RECORDS && |data| == s.mem.header.recordSize
    ensures Ready(s, Insert(data)) && Journals(s, Insert(data))
    ensures InsideData(s, Insert(data), PagesPer(s)) == Data(s)[s.mem.header.nextRecordId := data]
  {
    hide Coherent, Data, Room;
  }

  lemma PagesEnough(s: State)
    requires Coherent(s)
    ensures s.mem.header.recordSize <= PagesPer(s) * DB_PAGE_DATA_SIZE
  {
    hide Operable, Runs, FreeAgrees, Indexed;
  }

  lemma MixedAll(was: bytes, data: bytes, k: nat)
    requires |was| == |data| <= k * DB_PAGE_DATA_SIZE
    ensures Mixed(was, data, k) == data
  {
  }

  lemma InsideNothing(s: State, c: Change)
    requires Coherent(s) && Ready(s, c) && Journals(s, c)
    ensures InsideData(s, c, 0) == Data(s)
  {
  }

  // ---- A crash between the entries of an operation ----

  lemma TornReplace(s: State, id: int32, data: bytes, k: nat)
    requires InTransaction(s) && |data| == s.mem.header.recordSize && id in Dir(s.disk) && 0 < k < PagesPer(s)
    ensures k <= |Update(s, id, data).writes|
    ensures Ready(s, Replace(id, data)) && Journals(s, Replace(id, data))
    ensures RecoversAs(ApplyAll(s.disk, Update(s, id, data).writes[..k]), InsideData(s, Replace(id, data), k), false)
  {
    hide *;
    JournaledIn(s);
    TransactionFacts(s);
    FullFacts(s);
    IdsBelowNext(s);
    TornUpdate(s, id, data, k);
    InsideReplace(s, id, data, k);
    var d := ApplyAll(s.disk, Update(s, id, data).writes[..k]);
    OpensIs(d);
    NextIsNew(Data(s), s.disk.header.nextRecordId);
    CoherentRecovers(d, InsideData(s, Replace(id, data), k), false);
  }

  lemma NextIsNew(data: map<int32, bytes>, next: int32)
    requires IdsUpTo(data, next, false)
    ensures next !in data
  {
  }

  lemma InsideReplace(s: State, id: int32, data: bytes, k: nat)
    requires Coherent(s) && |data| == s.mem.header.recordSize && id in Dir(s.disk) && k > 0
    ensures Ready(s, Replace(id, data)) && Journals(s, Replace(id, data)) && id in Data(s)
    ensures |Data(s)[id]| == |data| && InsideData(s, Replace(id, data), k) == Data(s)[id := Mixed(Data(s)[id], data, k)]
  {
    hide Mixed, Coherent, Data;
    PartsOf(s);
    RecordSize(s, id);
  }

  lemma TornErase(s: State, id: int32, k: nat)
    requires InTransaction(s) && id in Dir(s.disk) && 0 < k < PagesPer(s)
    ensures k <= |Delete(s, id).writes| && Journals(s, Erase(id))
    ensures RecoversAs(ApplyAll(s.disk, Delete(s, id).writes[..k]), InsideData(s, Erase(id), k), false)
  {
    hide *;
    JournaledIn(s);
    TransactionFacts(s);
    FullFacts(s);
    IdsBelowNext(s);
    TornDelete(s, id, k);
    InsideErase(s, id, k);
    var d := ApplyAll(s.disk, Delete(s, id).writes[..k]);
    OpensIs(d);
    NextIsNew(Data(s), s.disk.header.nextRecordId);
    CoherentRecovers(d, InsideData(s, Erase(id), k), false);
  }

  lemma InsideErase(s: State, id: int32, k: nat)
    requires Coherent(s) && id in Dir(s.disk) && k > 0
    ensures Ready(s, Erase(id)) && Journals(s, Erase(id)) && InsideData(s, Erase(id), k) == Data(s) - {id}
  {
    hide Coherent, Data;
    PartsOf(s);
  }

  lemma TornInsert(s: State, data: bytes, m: nat)
    requires InTransaction(s) && Room(s) && |Entries(s.disk)| < MAX_RECORDS && |data| == s.mem.header.recordSize
    requires 0 < m < PagesPer(s)
    ensures |AddAllocation(s).writes| + m <= |Add(s, data).writes| && Ready(s, Insert(data))
      && Journals(s, Insert(data))
    ensures RecoversAs(ApplyAll(s.disk, Add(s, data).writes[..|AddAllocation(s).writes| + m]),
      InsideData(s, Insert(data), m), true)
  {
    hide *;
    JournaledIn(s);
    TornAdd(s, data, m);
    InsideInsert(s, data, m);
    var d := ApplyAll(s.disk, Add(s, data).writes[..|AddAllocation(s).writes| + m]);
    OpensIs(d);
    RecoversAsIs(d, Data(s), true);
  }

  lemma InsideInsert(s: State, data: bytes, m: nat)
    requires Coherent(s) && Room(s) && |Entries(s.disk)| < MAX_RECORDS && |data| == s.mem.header.recordSize
    requires m < PagesPer(s)
    ensures Ready(s, Insert(data)) && Journals(s, Insert(data)) && InsideData(s, Insert(data), m) == Data(s)
  {
    hide Coherent, Data, Room;
    PartsOf(s);
  }

  lemma RecoversAsIs(d: Disk, data: map<int32, bytes>, used: bool)
    requires Opens(d) && Anchored(Reopened(d)) && Indexed(Reopened(d).disk)
    requires forall id :: FindRecord(Reopened(d), id) == if id in data then Some(data[id]) else None
    requires IsKey(Reopened(d), Reopened(d).mem.header.nextRecordId) <==> used
    ensures RecoversAs(d, data, used)
  {
    hide Opens, Anchored, Indexed, FindRecord, IsKey;
  }

  // ---- A crash anywhere ----

  lemma InsideCrash(s: State, c: Change, k: nat)
    requires InTransaction(s) && Ready(s, c) && k < |Run(s, c).writes|
    ensures Journals(s, c)
    ensures RecoversAs(ApplyAll(s.disk, Run(s, c).writes[..k]), InsideData(s, c, EntriesBy(s, c, k)),
                       c.Insert? && EntriesBy(s, c, k) > 0)
  {
    hide *;
    TransactionFacts(s);
    JournaledIn(s);
    var m, grown := CrashInFirst(s, c, k);
    var d := ApplyAll(s.disk, Run(s, c).writes[..k]);
    if m == 0 {
      InsideNothing(s, c);
      BoundaryRecovers(d, s, grown, false);
    } else if m == PagesPer(s) {
      WholeOperation(s, c);
      BoundaryRecovers(d, After(s, Run(s, c)), 0, c.Insert?);
    } else {
      EntriesAt(s, c, k);
      OperationIs(s, c);
      match c {
        case Insert(data) => TornInsert(s, data, m);
        case Replace(id, data) => TornReplace(s, id, data, m);
        case Erase(id) => TornErase(s, id, m);
      }
    }
  }

  /** Between the entries of an operation the number of writes tells which. */
  lemma EntriesAt(s: State, c: Change, k: nat)
    requires InTransaction(s) && Ready(s, c) && 0 < EntriesBy(s, c, k) < PagesPer(s)
    ensures k == EntriesBy(s, c, k) + if c.Insert? then |AddAllocation(s).writes| else 0
  {
    hide InTransaction, Coherent, Room, AddAllocation;
  }

  lemma CrashedFirst(s: State, cs: seq<Change>, k: nat)
    requires InTransaction(s) && AllReady(s, cs) && cs != []
    ensures Ready(s, cs[0]) && InTransaction(After(s, Run(s, cs[0]))) && AllReady(After(s, Run(s, cs[0])), cs[1..])
    ensures var c, s1, ws := cs[0], After(s, Run(s, cs[0])), Run(s, cs[0]).writes;
      && (k < |ws| && Journals(s, c) ==>
            && CrashedData(s, cs, k) == InsideData(s, c, EntriesBy(s, c, k))
            && Unfinished(s, cs, k) == (c.Insert? && EntriesBy(s, c, k) > 0))
      && (k >= |ws| ==>
            && CrashedData(s, cs, k) == CrashedData(s1, cs[1..], k - |ws|)
            && Unfinished(s, cs, k) == Unfinished(s1, cs[1..], k - |ws|))
  {
    hide InTransaction, Run, ApplyAll, Ready, Coherent, Journals, InsideData, EntriesBy;
    JournaledIn(s);
    ReadyFirst(s, cs);
    OperationKeeps(s, cs[0]);
  }

  /** Inside a transaction, with records of any size: after a crash at any of its writes opening the database
      succeeds, every lookup gives what CrashedData gives, and the next id is a key of the index exactly when the
      crash came inside an addition after its first journal entry and before its header write. */
  lemma {:induction false} CrashReads(s: State, cs: seq<Change>, k: nat)
    requires InTransaction(s) && AllReady(s, cs) && k <= |AllWrites(s, cs)|
    ensures RecoversAs(ApplyAll(s.disk, AllWrites(s, cs)[..k]), CrashedData(s, cs, k), Unfinished(s, cs, k))
    decreases |cs|
  {
    hide *;
    TransactionFacts(s);
    if cs == [] {
      NoOperations(s);
      NothingCrashed(s, k);
      ApplyNone(s.disk);
      assert AllWrites(s, cs)[..k] == [];
      BoundaryRecovers(s.disk, s, 0, false);
    } else {
      WritesSplit(s, cs, k);
      CrashedFirst(s, cs, k);
      var ws, s1 := Run(s, cs[0]).writes, After(s, Run(s, cs[0]));
      if k < |ws| {
        InsideCrash(s, cs[0], k);
      } else {
        CrashReads(s1, cs[1..], k - |ws|);
      }
    }
  }

  lemma NothingCrashed(s: State, k: nat)
    requires InTransaction(s)
    ensures AllReady(s, []) && CrashedData(s, [], k) == Data(s) && !Unfinished(s, [], k)
  {
    hide InTransaction, Data, Coherent;
    JournaledIn(s);
  }

  /** The records after a crash that lets the first `k` writes of a whole transaction reach the disk. */
  function TransactionData(s: State, cs: seq<Change>, k: nat): map<int32, bytes>
    requires Coherent(s) && InTransaction(Begun(s)) && AllReady(Begun(s), cs)
  {
    if k < 2 then Data(s)
    else if k <= 2 + |AllWrites(Begun(s), cs)| then CrashedData(Begun(s), cs, k - 2)
    else Data(RunAll(Begun(s), cs))
  }

  predicate UnfinishedAt(s: State, cs: seq<Change>, k: nat)
    requires InTransaction(Begun(s)) && AllReady(Begun(s), cs)
  {
    2 <= k <= 2 + |AllWrites(Begun(s), cs)| && Unfinished(Begun(s), cs, k - 2)
  }

  lemma DataAt(s: State, cs: seq<Change>, k: nat)
    requires Coherent(s) && InTransaction(Begun(s)) && AllReady(Begun(s), cs)
    ensures var w := |AllWrites(Begun(s), cs)|;
      && Coherent(RunAll(Begun(s), cs))
      && (k < 2 ==> TransactionData(s, cs, k) == Data(s) && !UnfinishedAt(s, cs, k))
      && (k > 2 + w ==> TransactionData(s, cs, k) == Data(RunAll(Begun(s), cs)) && !UnfinishedAt(s, cs, k))
      && (2 <= k <= 2 + w ==>
            && TransactionData(s, cs, k) == CrashedData(Begun(s), cs, k - 2)
            && UnfinishedAt(s, cs, k) == Unfinished(Begun(s), cs, k - 2))
  {
    hide Coherent, InTransaction, AllReady, AllWrites, RunAll, CrashedData, Unfinished, Begun, Data;
    JournaledIn(RunAll(Begun(s), cs));
  }

  /** The same for a crash anywhere from BeginTransaction to CommitTransaction. */
  lemma TransactionReads(s: State, cs: seq<Change>, k: nat)
    requires Full(s) && !s.mem.header.journalPending && InTransaction(Begun(s)) && AllReady(Begun(s), cs)
    requires k <= |TransactionWrites(s, cs)|
    ensures RecoversAs(ApplyAll(s.disk, TransactionWrites(s, cs)[..k]), TransactionData(s, cs, k),
      UnfinishedAt(s, cs, k))
  {
    hide *;
    BeginStarts(s);
    TransactionPrefix(s, cs, k);
    FullFacts(s);
    DataAt(s, cs, k);
    var d, w, t := ApplyAll(s.disk, TransactionWrites(s, cs)[..k]), |AllWrites(Begun(s), cs)|, RunAll(Begun(s), cs);
    TransactionFacts(t);
    FullFacts(t);
    OpensIs(d);
    if k < 2 {
      HeaderUnpending(s);
      OpensAsIs(d, s);
      RecoveredIds(d, s, false);
      FullRecovers(d, s);
    } else if k <= 2 + w {
      CrashReads(Begun(s), cs, k - 2);
    } else {
      OpensAsIs(d, t);
      RecoveredIds(d, t, false);
      FullRecovers(d, t);
    }
  }

  lemma FullRecovers(d: Disk, s: State)
    requires Coherent(s) && RecoversTo(d, s)
    requires Opens(d) && Full(Reopened(d))
    ensures RecoversAs(d, Data(s), false)
  {
    hide *;
    OpensIs(d);
    RecoveredIds(d, s, false);
    NextUnused(Reopened(d));
    CoherentRecovers(d, Data(s), false);
  }

  lemma NextUnused(r: State)
    requires Full(r)
    ensures r.mem.header.nextRecordId !in Data(r)
  {
    hide Runs, NoneLost, Records, FreeAgrees;
  }

  // ---- Crashes during the recovery ----

  lemma CrashedReplaying(s: State, s': State, n: nat, d: Disk, m: nat, grown: nat)
    requires InTransaction(s) && InTransaction(s') && CrashedAt(s.disk, s'.disk, n, d, m, grown)
    requires Opens(d)
    ensures Replaying(d)
  {
    hide Full, SettledDisk, Redo, Named, InFile;
    TransactionFacts(s);
    TransactionFacts(s');
    RedoTouches(d.journal.value, d.pages);
  }

  lemma SettledReplaying(s: State)
    requires InTransaction(s)
    ensures Replaying(s.disk)
  {
    hide *;
    SettledRecoverable(s);
    RecoverableReplaying(s.disk, s, 0);
  }

  /** Every crash in the sequence leaves a disk from which recovery starts. */
  lemma {:induction false} CrashStarts(s: State, cs: seq<Change>, k: nat)
    requires InTransaction(s) && AllReady(s, cs) && k <= |AllWrites(s, cs)|
    ensures Replaying(ApplyAll(s.disk, AllWrites(s, cs)[..k]))
    decreases |cs|
  {
    hide *;
    if cs == [] {
      NoOperations(s);
      ApplyNone(s.disk);
      assert AllWrites(s, cs)[..k] == [];
      SettledReplaying(s);
    } else {
      JournaledIn(s);
      WritesSplit(s, cs, k);
      var c, ws, s1 := cs[0], Run(s, cs[0]).writes, After(s, Run(s, cs[0]));
      if k < |ws| {
        var m, grown := CrashInFirst(s, c, k);
        m, grown := OperationCrash(s, c, k);
        InsideCrash(s, c, k);
        RecoversAsParts(ApplyAll(s.disk, ws[..k]), InsideData(s, c, EntriesBy(s, c, k)), c.Insert?
          && EntriesBy(s, c, k) > 0);
        CrashedReplaying(s, s1, PagesPer(s), ApplyAll(s.disk, ws[..k]), m, grown);
      } else {
        CrashStarts(s1, cs[1..], k - |ws|);
      }
    }
  }

  /** Inside a transaction, with records of any size: after a crash at any of its writes, and any number of crashes
      during the recovery, every lookup gives what CrashedData gives, unless one of them left the index file
      truncated. */
  lemma RestartsRead(s: State, cs: seq<Change>, k: nat, ks: seq<nat>)
    requires InTransaction(s) && AllReady(s, cs) && k <= |AllWrites(s, cs)|
    ensures var d := RestartAll(ApplyAll(s.disk, AllWrites(s, cs)[..k]), ks);
      d.index == BTree.NoHeader || RecoversAs(d, CrashedData(s, cs, k), Unfinished(s, cs, k))
  {
    hide *;
    CrashReads(s, cs, k);
    CrashStarts(s, cs, k);
    var d := ApplyAll(s.disk, AllWrites(s, cs)[..k]);
    RecoverySurvivesCrashes(d, ks);
    if RestartAll(d, ks).index != BTree.NoHeader {
      SameReads(RestartAll(d, ks), d, CrashedData(s, cs, k), Unfinished(s, cs, k));
    }
  }

  lemma SameReads(e: Disk, d: Disk, data: map<int32, bytes>, used: bool)
    requires Replaying(d) && SameRecovery(e, d) && RecoversAs(d, data, used)
    ensures RecoversAs(e, data, used)
  {
    hide Replaying, Replayable, Open, Reopened, Anchored, Indexed, FindRecord, Start;
    ReplayingReplays(d);
    NotOpen(d);
    OnlyJournal(Reopened(e), Reopened(d));
    SameJournal(Reopened(e), Reopened(d), Reopened(d).mem.header.nextRecordId);
    forall id ensures FindRecord(Reopened(e), id) == FindRecord(Reopened(d), id) {
      SameJournal(Reopened(e), Reopened(d), id);
    }
  }

  lemma NotOpen(d: Disk)
    requires Replayable(d) && Open(d) == Some(Replay(d))
    ensures !Reopened(d).mem.journalOpen
  {
    hide ApplyAll, RedoWrites, Redone, RecoveredHeader;
  }

  lemma OnlyJournal(a: State, b: State)
    requires a.mem == b.mem && a.disk == b.disk.(journal := a.disk.journal) && !b.mem.journalOpen
    ensures Anchored(b) ==> Anchored(a)
    ensures Indexed(b.disk) ==> Indexed(a.disk)
  {
    hide Operable, Allocator.Sound, Count, ProperIndex, Singles;
    if Anchored(b) {
      AnchoredParts(b);
      forall id ensures KeyStarts(a, id) {
        SameStart(b, a, id);
        SizeKept(b, a);
        assert KeyStarts(b, id);
      }
      FreeParts(b);
      IsAnchored(a);
    }
  }

  lemma SameJournal(a: State, b: State, id: int32)
    requires a.mem == b.mem && a.disk == b.disk.(journal := a.disk.journal)
    ensures FindRecord(a, id) == FindRecord(b, id) && Start(a, id) == Start(b, id)
  {
  }

  // ---- The first addition after a crash ----

  /** After a crash anywhere in a transaction and a restart: when the index and the file have room the next addition
      succeeds, and for every record the addition can be found exactly when the crash did not come inside an earlier
      addition, after its first journal entry and before its header write. */
  lemma AdditionAfterCrash(s: State, cs: seq<Change>, k: nat, data: bytes)
    requires Full(s) && !s.mem.header.journalPending && InTransaction(Begun(s)) && AllReady(Begun(s), cs)
    requires k <= |TransactionWrites(s, cs)|
    ensures var d := ApplyAll(s.disk, TransactionWrites(s, cs)[..k]);
      && Opens(d)
      && var r := Reopened(d);
      && Anchored(r) && Indexed(r.disk)
      && (Room(r) && |Entries(r.disk)| < MAX_RECORDS && |data| == r.mem.header.recordSize ==>
            && Add(r, data).ok
            && ((forall x: bytes :: |x| == |data| ==>
               FindRecord(After(r, Add(r, x)), r.mem.header.nextRecordId) == Some(x))
                <==> !UnfinishedAt(s, cs, k)))
  {
    hide *;
    TransactionReads(s, cs, k);
    var d := ApplyAll(s.disk, TransactionWrites(s, cs)[..k]);
    OpensIs(d);
    RecoversAsParts(d, TransactionData(s, cs, k), UnfinishedAt(s, cs, k));
    var r := Reopened(d);
    if Room(r) && |Entries(r.disk)| < MAX_RECORDS && |data| == r.mem.header.recordSize {
      NewRecordFound(r, data);
    }
  }

  lemma RecoversAsParts(d: Disk, data: map<int32, bytes>, used: bool)
    requires RecoversAs(d, data, used)
    ensures Opens(d) && Anchored(Reopened(d)) && Indexed(Reopened(d).disk)
    ensures IsKey(Reopened(d), Reopened(d).mem.header.nextRecordId) <==> used
  {
    hide Anchored, Indexed, ReadsAs, IsKey;
  }

  /** Every addition has such points: after any number of its journal entries. */
  lemma AdditionCanStop(s: State, data: bytes, m: nat) returns (k: nat)
    requires InTransaction(s) && Ready(s, Insert(data)) && 1 <= m <= PagesPer(s)
    ensures AllReady(s, [Insert(data)]) && k < |AllWrites(s, [Insert(data)])|
    ensures EntriesBy(s, Insert(data), k) == m && Unfinished(s, [Insert(data)], k)
    ensures Stale(s, [Insert(data)], k) <==> m == PagesPer(s)
  {
    hide *;
    var c, cs := Insert(data), [Insert(data)];
    JournaledIn(s);
    OperationKeeps(s, c);
    NoOperations(After(s, Run(s, c)));
    OneReady(s, c);
    InsertParts(s, data);
    AddShape(s, data);
    AddAllocationIs(s);
    k := |AddAllocation(s).writes| + m;
    EntriesAfter(s, data, m);
    CrashedFirst(s, cs, k);
    FirstStep(s, cs, 0, k);
    var n, grown := CrashInFirst(s, c, k);
  }

  lemma InsertParts(s: State, data: bytes)
    requires Coherent(s) && Ready(s, Insert(data))
    ensures Room(s) && |Entries(s.disk)| < MAX_RECORDS && Run(s, Insert(data)) == Add(s, data)
      && Journals(s, Insert(data))
  {
    hide Coherent, Room, Add;
  }

  lemma OneReady(s: State, c: Change)
    requires InTransaction(s) && Ready(s, c) && InTransaction(After(s, Run(s, c))) && AllReady(After(s, Run(s, c)), [])
    ensures AllReady(s, [c]) && AllWrites(s, [c]) == Run(s, c).writes
  {
    hide InTransaction, Run, Ready, Coherent, After;
    assert [c][1..] == [];
  }

  lemma EntriesAfter(s: State, data: bytes, m: nat)
    requires InTransaction(s) && Ready(s, Insert(data)) && Room(s) && 1 <= m <= PagesPer(s)
    ensures EntriesBy(s, Insert(data), |AddAllocation(s).writes| + m) == m
  {
    hide InTransaction, Ready, AddAllocation, Room, Operable;
  }
}
