/** Crashes while the database recovers from a crash. */
module Restarts {
  import opened Words
  import opened DbTypes
  import opened Pages
  import opened Disk
  import opened Directories
  import opened Engine
  import opened Refinement
  import opened Maintenance
  import opened Journal
  import opened Recovery
  import opened Crash
  import opened Transactions
  import Allocator
  import BTree
  import Compaction
  import Leaf

  // ---- A prefix of the recovery writes ----

  /** Some of the replay's page writes are the page writes of some of the journal. */
  lemma {:induction false} RedoPrefix(es: seq<DBJournalEntry>, pages: Store, k: nat) returns (i: nat)
    requires |Redo(es, pages)| <= Allocator.MAX_PAGES && k <= |RedoWrites(es, pages)|
    ensures i <= |es| && |Redo(es[..i], pages)| <= Allocator.MAX_PAGES
    ensures RedoWrites(es, pages)[..k] == RedoWrites(es[..i], pages)
  {
    hide RedoWrite;
    if k == |RedoWrites(es, pages)| {
      i := |es|;
      assert es[..i] == es;
    } else {
      var init := es[..|es| - 1];
      i := RedoPrefix(init, pages, k);
      assert init[..i] == es[..i];
    }
  }

  /** The index is gone only between its truncation and the writing of its header. */
  lemma IndexPrefix(d: Disk, pages: Store, t: nat)
    requires |pages| <= Allocator.MAX_PAGES && t <= |RebuildWrites(pages)| && d.index != BTree.NoHeader
    ensures var d' := ApplyAll(d, RebuildWrites(pages)[..t]);
      d' == d.(index := d'.index) && (d'.index == BTree.NoHeader <==> t == 2)
  {
    hide ApplyAll, Scanned, BTree.EmptyLeaf;
    RecreateEffect(d);
    ApplyNone(d);
    if t < 4 {
      assert RebuildWrites(pages)[..t] == Recreate()[..t];
    } else {
      assert RebuildWrites(pages)[..t] == Recreate() + ScanWrites(pages, |pages|)[..t - 4];
      ApplyConcat(d, Recreate(), ScanWrites(pages, |pages|)[..t - 4]);
      ScanIsAfterwards(pages, |pages|);
      LeavesPrefix(ApplyAll(d, Recreate()), ScanWrites(pages, |pages|), t - 4);
    }
  }

  predicate WritesLeaf(w: Write) {
    w.PutIndex? && w.change.LeafWritten?
  }

  lemma {:induction false} ScanIsAfterwards(pages: Store, k: nat)
    requires k <= |pages| <= Allocator.MAX_PAGES
    ensures forall w :: w in ScanWrites(pages, k) ==> WritesLeaf(w)
  {
    hide Scanned, LeafOf;
    if k > 0 {
      ScanIsAfterwards(pages, k - 1);
    }
  }

  lemma {:induction false} LeavesPrefix(d: Disk, ws: seq<Write>, k: nat)
    requires k <= |ws| && d.index.Ready? && forall w :: w in ws ==> WritesLeaf(w)
    ensures var d' := ApplyAll(d, ws[..k]); d' == d.(index := d'.index) && d'.index.Ready?
  {
    if k > 0 {
      LeavesPrefix(d, ws, k - 1);
      assert ws[..k][..k - 1] == ws[..k - 1];
      assert ws[k - 1] in ws;
    }
  }

  // ---- One crash during recovery ----

  function RedoCount(d: Disk): nat
    requires Replayable(d)
  {
    |RedoWrites(d.journal.value, d.pages)|
  }

  function RecoveryLength(d: Disk): nat
    requires Replayable(d)
  {
    |Replay(d).writes|
  }

  /** A disk from which recovery starts: a transaction is pending, and the journal's entries name pages of the file. */
  predicate Replaying(d: Disk) {
    && d.journal.Some? && Named(d.journal.value) && InFile(d.journal.value, |d.pages|)
    && |d.pages| <= Allocator.MAX_PAGES && d.index != BTree.NoHeader
    && d.leading == 2 && d.header.journalPending && d.header.signature == DB_SIGNATURE
  }

  lemma ReplayingReplays(d: Disk)
    requires Replaying(d)
    ensures d.journal.Some? && d.index != BTree.NoHeader && d.header.journalPending
    ensures Replayable(d) && Open(d) == Some(Replay(d))
    ensures |Redone(d)| <= Allocator.MAX_PAGES && |Redone(d)| == |d.pages|
    ensures Redone(d) == Redo(d.journal.value, d.pages)
  {
    hide Replay;
    RedoTouches(d.journal.value, d.pages);
  }

  /** Recovery from `e` starts with the header and journal of `d` and replays to the same pages. */
  predicate Continues(e: Disk, d: Disk)
    requires Replaying(d)
  {
    Replaying(e) && e.header == d.header && e.journal == d.journal && Redone(e) == Redone(d)
  }

  /** Opening `e` gives what opening `d` gives, but for what is left in the journal file. */
  predicate SameRecovery(e: Disk, d: Disk)
    requires Replaying(d)
  {
    ReplayingReplays(d);
    && Openable(e) && Open(e).Some? && Reopened(e).mem == Reopened(d).mem
    && Reopened(e).disk == Reopened(d).disk.(journal := Reopened(e).disk.journal)
    && Reopened(e).mem.header.nextRecordId == e.header.nextRecordId
  }

  lemma ContinuesSame(e: Disk, d: Disk)
    requires Replaying(d) && Continues(e, d)
    ensures SameRecovery(e, d)
  {
    hide ApplyAll, Redone, Redo, Scanned, LeafOf, Allocator.Refilled, ActiveCount, RedoWrites, RebuildWrites;
    ReplayingReplays(d);
    ReplayingReplays(e);
    ReplayEffect(d);
    ReplayEffect(e);
  }

  /** The journal over pages to which some of it has been replayed. */
  lemma StillReplaying(d: Disk, i: nat, e: Disk)
    requires Replaying(d) && i <= |d.journal.value|
    requires e == d.(pages := Redo(d.journal.value[..i], d.pages), index := e.index, free := e.free)
    requires e.index != BTree.NoHeader
    ensures Continues(e, d)
  {
    hide Redo, Target, Appends;
    ReplayTwice(d.journal.value, i, d.pages);
    var es := d.journal.value[..i];
    assert forall e :: e in es ==> e in d.journal.value;
    RedoTouches(es, d.pages);
  }

  lemma ReplayParts(d: Disk, k: nat)
    requires Replayable(d) && k <= RecoveryLength(d)
    ensures |Redone(d)| <= Allocator.MAX_PAGES
    ensures var a, b, f, ws := RedoWrites(d.journal.value, d.pages), RebuildWrites(Redone(d)),
        Allocator.Refilled(Redone(d)), Replay(d).writes;
      && |b| >= 4 && |ws| == |a| + |b| + 3
      && (k <= |a| ==> ws[..k] == a[..k])
      && (|a| <= k <= |a| + |b| ==> ws[..k] == a + b[..k - |a|])
      && (k == |a| + |b| + 1 ==> ws[..k] == a + b + [PutFree(f)])
      && (k == |a| + |b| + 2 ==> ws[..k] == a + b + [PutFree(f)] + [PutHeader(RecoveredHeader(d))])
      && (k == |a| + |b| + 3 ==> ws[..k] == ws)
  {
    hide Redo, RedoWrites, Allocator.Refilled, RecoveredHeader, ScanWrites;
  }

  /** Recovery cut short after any number of its writes can start over and comes to the same state, except between the
      truncation of the index and the writing of its header: then the database no longer opens. */
  lemma RecoveryInterrupted(d: Disk, k: nat)
    requires Replaying(d) && Replayable(d) && k <= RecoveryLength(d)
    ensures var e := ApplyAll(d, Replay(d).writes[..k]);
      && (k < RecoveryLength(d) - 1 && k != RedoCount(d) + 2 ==> Continues(e, d))
      && (k == RedoCount(d) + 2 ==> e.index == BTree.NoHeader)
      && (k >= RecoveryLength(d) - 1 ==> !e.header.journalPending)
      && (k != RedoCount(d) + 2 ==> SameRecovery(e, d))
  {
    hide *;
    ReplayingReplays(d);
    RecoveryCounts(d);
    ReplayParts(d, k);
    ApplyNone(d);
    var es, a, b, n := d.journal.value, RedoWrites(d.journal.value, d.pages), RebuildWrites(Redone(d)),
      |d.journal.value|;
    var d1 := d.(pages := Redone(d));
    RedoWritesEffect(d, es);
    assert es[..n] == es;
    var e := ApplyAll(d, Replay(d).writes[..k]);
    if k <= |a| {
      var i := RedoPrefix(es, d.pages, k);
      RedoWritesEffect(d, es[..i]);
      StillReplaying(d, i, e);
      ContinuesSame(e, d);
    } else if k <= |a| + |b| {
      ApplyConcat(d, a, b[..k - |a|]);
      IndexPrefix(d1, Redone(d), k - |a|);
      if k != |a| + 2 {
        StillReplaying(d, n, e);
        ContinuesSame(e, d);
      }
    } else {
      assert b[..|b|] == b;
      ApplyConcat(d, a, b);
      IndexPrefix(d1, Redone(d), |b|);
      ApplyLast(d, a + b, PutFree(Allocator.Refilled(Redone(d))));
      ApplyPutFree(ApplyAll(d1, b), Allocator.Refilled(Redone(d)));
      if k == |a| + |b| + 1 {
        StillReplaying(d, n, e);
        ContinuesSame(e, d);
      } else {
        RecoveryFinished(d, k);
      }
    }
  }

  lemma RecoveryCounts(d: Disk)
    requires Replayable(d)
    ensures RedoCount(d) == |RedoWrites(d.journal.value, d.pages)| && RecoveryLength(d) == |Replay(d).writes|
  {
  }

  lemma ApplyPutFree(d: Disk, f: DBFreeList)
    ensures Apply(d, PutFree(f)) == d.(free := f)
  {
  }

  /** Once the pending flag is cleared recovery is complete. */
  lemma RecoveryFinished(d: Disk, k: nat)
    requires Replaying(d) && Replayable(d) && RecoveryLength(d) - 1 <= k <= RecoveryLength(d)
    ensures var e := ApplyAll(d, Replay(d).writes[..k]); !e.header.journalPending && SameRecovery(e, d)
  {
    hide *;
    ReplayingReplays(d);
    RecoveryCounts(d);
    ReplayEffect(d);
    var ws, e := Replay(d).writes, ApplyAll(d, Replay(d).writes[..k]);
    LastWrite(d);
    ApplyLast(d, ws[..|ws| - 1], ClearJournal);
    assert ws[..|ws|] == ws;
    OpensRecovered(d, e);
  }

  lemma LastWrite(d: Disk)
    requires Replayable(d)
    ensures var ws := Replay(d).writes;
      |ws| > 0 && ws == ws[..|ws| - 1] + [ClearJournal]
      && Apply(ApplyAll(d, ws[..|ws| - 1]), ClearJournal) == ApplyAll(d, ws[..|ws| - 1]).(journal := Some([]))
  {
    hide ApplyAll, RedoWrites, RebuildWrites, Allocator.Refilled, RecoveredHeader, Redone, Named;
  }

  lemma OpensRecovered(d: Disk, e: Disk)
    requires Replaying(d) && Replayable(d)
    requires e.(journal := Some([])) == ApplyAll(d, Replay(d).writes).(journal := Some([]))
    ensures !e.header.journalPending && SameRecovery(e, d)
  {
    hide ApplyAll, RedoWrites, RebuildWrites, Redone, Scanned, LeafOf, Named, Redo, ActiveCount, Allocator.Refilled;
    ReplayingReplays(d);
    ReplayEffect(d);
    ApplyNone(e);
  }

  // ---- Any number of crashes ----

  /** The disk after the database was opened and crashed after the first `k` writes of opening. */
  function Restart(d: Disk, k: nat): Disk {
    if !Openable(d) || Open(d).None? then d
    else
      var ws := Open(d).value.writes;
      ApplyAll(d, ws[..if k <= |ws| then k else |ws|])
  }

  function RestartAll(d: Disk, ks: seq<nat>): Disk {
    if ks == [] then d else Restart(RestartAll(d, ks[..|ks| - 1]), ks[|ks| - 1])
  }

  /** Recovery is under way, complete, or stuck because the index file was left truncated. */
  predicate Underway(e: Disk, d: Disk)
    requires Replaying(d)
  {
    e.index == BTree.NoHeader || Continues(e, d) || (!e.header.journalPending && SameRecovery(e, d))
  }

  lemma SameTransitive(c: Disk, b: Disk, a: Disk)
    requires Replaying(a) && Continues(b, a)
    ensures Continues(c, b) ==> Continues(c, a)
    ensures SameRecovery(c, b) ==> SameRecovery(c, a)
  {
    hide Replaying, Reopened, Open, Redone, Replayable;
    ReplayingReplays(a);
    ReplayingReplays(b);
    ContinuesSame(b, a);
  }

  lemma RestartKeeps(e: Disk, d: Disk, k: nat)
    requires Replaying(d) && Underway(e, d)
    ensures Underway(Restart(e, k), d)
  {
    hide Replaying, ApplyAll, RedoWrites, RebuildWrites, SameRecovery, Continues, Replay;
    if Openable(e) && Open(e).Some? {
      if Continues(e, d) {
        ContinuesReplays(e, d);
        ReplayingReplays(e);
        var i := if k <= RecoveryLength(e) then k else RecoveryLength(e);
        RecoveryInterrupted(e, i);
        assert Restart(e, k) == ApplyAll(e, Replay(e).writes[..i]);
        SameTransitive(Restart(e, k), e, d);
      } else if e.index != BTree.NoHeader {
        ApplyNone(e);
        assert Restart(e, k) == e;
      }
    }
  }

  lemma ContinuesReplays(e: Disk, d: Disk)
    requires Replaying(d) && Continues(e, d)
    ensures Replaying(e)
  {
    hide Replaying;
  }

  lemma {:induction false} RestartsKeep(d: Disk, ks: seq<nat>)
    requires Replaying(d)
    ensures Underway(RestartAll(d, ks), d)
  {
    hide Replaying, Restart, SameRecovery, Redone;
    if ks != [] {
      RestartsKeep(d, ks[..|ks| - 1]);
      RestartKeeps(RestartAll(d, ks[..|ks| - 1]), d, ks[|ks| - 1]);
    } else {
      Itself(d);
    }
  }

  lemma Itself(d: Disk)
    requires Replaying(d)
    ensures Continues(d, d)
  {
  }

  /** However often recovery itself is cut short, the next opening comes to the same state, unless a crash left the
      index file truncated. */
  lemma RecoverySurvivesCrashes(d: Disk, ks: seq<nat>)
    requires Replaying(d)
    ensures var e := RestartAll(d, ks); e.index == BTree.NoHeader || SameRecovery(e, d)
  {
    hide Replaying, RestartAll, SameRecovery, Continues;
    RestartsKeep(d, ks);
    var e := RestartAll(d, ks);
    if Continues(e, d) {
      ContinuesSame(e, d);
    }
  }

  lemma RecoverableReplaying(d: Disk, s: State, grown: nat)
    requires Recoverable(d, s, grown)
    ensures Replaying(d)
  {
    RedoTouches(d.journal.value, d.pages);
  }

  /** So after a crash that leaves the journal at the end of an operation and any number of interrupted recoveries the
      records are those after the operations in the journal. */
  lemma RecordsSurviveCrashes(d: Disk, s: State, grown: nat, ks: seq<nat>)
    requires Full(s) && Recoverable(d, s, grown)
    ensures Coherent(s)
    ensures var e := RestartAll(d, ks); e.index == BTree.NoHeader || RecoversTo(e, s)
  {
    hide *;
    FullFacts(s);
    RecoverableReplaying(d, s, grown);
    RecoverableRecovers(d, s, grown);
    RecoverySurvivesCrashes(d, ks);
    if RestartAll(d, ks).index != BTree.NoHeader {
      SameRecoversTo(RestartAll(d, ks), d, s);
    }
  }

  lemma SameRecoversTo(e: Disk, d: Disk, s: State)
    requires Coherent(s) && Replaying(d) && SameRecovery(e, d) && RecoversTo(d, s)
    ensures RecoversTo(e, s)
  {
    hide Replaying, Open, Reopened, Replayable, Coherent, NoneLost, Data;
    ReplayingReplays(d);
    OpensIs(e);
    CoherentButJournal(Reopened(e), Reopened(d));
  }

  lemma CoherentButJournal(a: State, b: State)
    requires Coherent(b) && NoneLost(b) && !b.mem.header.journalPending
    requires a.mem == b.mem && a.disk == b.disk.(journal := a.disk.journal)
    ensures Coherent(a) && NoneLost(a) && Data(a) == Data(b)
  {
    hide Runs, Owned, Count, Singles, DirectoryOf, Records, Allocator.Sound, Operable;
  }

  // ---- A next id that is live ----

  /** After a crash between an addition's journal entry and its header write the next id is live. The next addition
      then reuses it: lookups go on giving the old record, the new one cannot be found, and the database no longer
      validates. */
  lemma AddReusesLiveId(s: State, data: bytes)
    requires Coherent(s) && Room(s) && |data| == s.mem.header.recordSize
    requires s.mem.header.nextRecordId in Data(s) && |Entries(s.disk)| < MAX_RECORDS
    ensures Add(s, data).ok && After(s, Add(s, data)).disk.index.Ready?
    ensures var id, s' := s.mem.header.nextRecordId, After(s, Add(s, data));
      FindRecord(s', id) == Some(Data(s)[id]) && !Compaction.Validates(s') && s'.mem.header.recordCount == |Data(s)| + 1
  {
    hide *;
    AllocatedBelow(s);
    GrantedRange(s);
    AddEffect(s, data);
    FullEnough(s);
    CanAllocate(s);
    var id, d, a := s.mem.header.nextRecordId, s.disk, Allocator.Allocate(s.mem.free, s.disk.pages, PagesPer(s));
    ElsewhereGranted(s, id, a.first, a.free, a.grown);
    Reenter(Entries(d), id, a.first);
    RecordsAfterGrant(d.pages, s.mem.header.recordSize, Dir(d), a.first, a.free, a.grown, id, data);
    AddedState(s, data);
    LosesNewRecord(s, After(s, Add(s, data)), Dir(d)[id] + 2, a.first, data);
  }

  lemma FullEnough(s: State)
    requires Coherent(s)
    ensures Runs(s.disk.pages, PagesPer(s), Dir(s.disk)) && s.mem.header.recordSize > 0 && Singles(Entries(s.disk))
    ensures s.mem.header.recordCount == |Entries(s.disk)| == |Dir(s.disk)| == |Data(s)|
    ensures PagesPer(s) == CalculatePagesNeeded(s.mem.header.recordSize)
    ensures forall id :: id in Data(s) <==> id in Dir(s.disk)
    ensures Data(s) == Records(s.disk.pages, s.mem.header.recordSize, Dir(s.disk))
    ensures Indexed(s.disk) && Dir(s.disk) == DirectoryOf(Entries(s.disk))
    ensures s.disk.index.Ready? && Entries(s.disk) == s.disk.index.leaf.entries
  {
    DirectorySize(Entries(s.disk));
    assert |Data(s)| == |Data(s).Keys| && |Dir(s.disk)| == |Dir(s.disk).Keys|;
  }

  /** A granted run does not start where a record does. */
  lemma ElsewhereGranted(s: State, id: int32, first: int32, free: DBFreeList, grown: nat)
    requires Coherent(s) && id in Dir(s.disk) && Allocator.Granted(s.disk.pages, PagesPer(s), first, free, grown)
    ensures first != Dir(s.disk)[id] + 2
  {
    hide DirectoryOf, Allocator.Sound, Count;
    StartIsActive(s.disk.pages, PagesPer(s), Dir(s.disk), id);
    assert (s.disk.pages + Empties(grown))[Dir(s.disk)[id]] == s.disk.pages[Dir(s.disk)[id]];
  }

  lemma AddedState(s: State, data: bytes)
    requires Coherent(s) && Room(s)
    ensures var a := Allocator.Allocate(s.mem.free, s.disk.pages, PagesPer(s));
      && 2 <= a.first && a.first - 2 + PagesPer(s) <= |s.disk.pages| + a.grown
      && AddedPages(s, data).pages
         == WithRun(s.disk.pages + Empties(a.grown), a.first - 2, s.mem.header.nextRecordId, data, PagesPer(s))
    ensures Add(s, data).mem.header.recordSize == s.mem.header.recordSize
    ensures Add(s, data).ok ==> Add(s, data).mem.header.recordCount == s.mem.header.recordCount + 1
    ensures After(s, Add(s, data)).mem == Add(s, data).mem
    ensures After(s, Add(s, data)).disk == ApplyAll(s.disk, Add(s, data).writes)
  {
    hide ApplyAll, WithRun, RecordWrites, IndexWrites, Leaf.Inserted, Allocator.Allocate;
    AllocatedBelow(s);
    GrantedRange(s);
  }

  /** What becomes of a second record with the id of a first. */
  lemma LosesNewRecord(s: State, s': State, page: int, first: int32, data: bytes)
    requires Coherent(s) && s.mem.header.nextRecordId in Dir(s.disk)
      && page == Dir(s.disk)[s.mem.header.nextRecordId] + 2
    requires s'.disk.index.Ready? && s'.mem.header.recordSize == s.mem.header.recordSize && first != page
    requires var id, n := s.mem.header.nextRecordId, PagesPer(s);
      && Leaf.Found(s'.disk.index.leaf.entries, id) == Some([page, first])
      && Runs(s'.disk.pages, n, Dir(s.disk)) && Records(s'.disk.pages, s.mem.header.recordSize, Dir(s.disk)) == Data(s)
      && 2 <= first && first - 2 < |s'.disk.pages| && s'.disk.pages[first - 2] == Image(id, data, 0)
    ensures FindRecord(s', s.mem.header.nextRecordId) == Some(Data(s)[s.mem.header.nextRecordId])
    ensures !Compaction.Validates(s')
  {
    hide Leaf.Found, DirectoryOf, Singles, Content, Coherent, Data, Records, Count;
    FullEnough(s);
    var id := s.mem.header.nextRecordId;
    assert RecordAt(s'.disk.pages, s.mem.header.recordSize, Dir(s.disk), id) == Data(s)[id] by {
      RecordsAt(s'.disk.pages, s.mem.header.recordSize, Dir(s.disk), id);
    }
    assert !Compaction.PageIndexed(s'.disk, first - 2);
  }

  lemma RecordsAt(pages: Store, size: uint16, dir: Directory, id: int32)
    requires Runs(pages, CalculatePagesNeeded(size), dir) && id in dir
    ensures Records(pages, size, dir)[id] == RecordAt(pages, size, dir, id)
  {
  }
}
