/** Rebuilding the index and compacting where pages are lost or a run is not whole, and crashes in between. */
module Upkeep {
  import opened Words
  import opened DbTypes
  import opened Pages
  import opened Disk
  import opened Directories
  import opened Engine
  import opened Refinement
  import opened Maintenance
  import opened Scans
  import opened Compaction
  import opened Recovery
  import opened Anchors
  import Allocator
  import BTree
  import Leaf

  // ---- RebuildIndex ----

  /** What is read for an id when a scan of the first `k` pages built the index. */
  function ReadScanned(pages: Store, size: uint16, k: nat, id: int32): Option<bytes>
    requires k <= |pages| <= Allocator.MAX_PAGES
  {
    match ScanStart(pages[..k], id)
    case None => None
    case Some(slot) => ReadAt(pages, size, slot, id)
  }

  lemma ScanReads(s: State, k: nat, id: int32)
    requires k <= |s.disk.pages| <= Allocator.MAX_PAGES && IndexesScan(s.disk.index, s.disk.pages[..k])
    ensures Start(s, id) == ScanStart(s.disk.pages[..k], id)
    ensures FindRecord(s, id) == ReadScanned(s.disk.pages, s.mem.header.recordSize, k, id)
  {
    hide FindRecord, ReadAt, ScanStart, BTree.FirstValue;
    FindIs(s, id);
  }

  /** Whatever the pages hold: a rebuilt index starts each id at its lowest active page, as long as the scan finds room,
      and a lookup finds the record when its run there is whole. */
  lemma RebuildReads(s: State)
    requires |s.disk.pages| <= Allocator.MAX_PAGES
    ensures var s' := After(s, Rebuild(s));
      && s'.disk == s.disk.(index := s'.disk.index) && IndexesScan(s'.disk.index, s.disk.pages)
      && forall id ::
           FindRecord(s', id) == ReadScanned(s.disk.pages, s.mem.header.recordSize, |s.disk.pages|, id)
  {
    hide ApplyAll, RebuildWrites, Scanned, FindRecord, ReadScanned, IndexesScan;
    RebuildEffect(s.disk);
    var pages, s' := s.disk.pages, After(s, Rebuild(s));
    ScanIndexes(pages, |pages|);
    assert pages[..|pages|] == pages;
    forall id ensures FindRecord(s', id) == ReadScanned(pages, s.mem.header.recordSize, |pages|, id) {
      ScanReads(s', |pages|, id);
    }
  }

  /** The same after recovery: whatever the journal holds, each id starts at its lowest active page of the replayed
      pages, and the database is anchored exactly when there is space behind every start. */
  lemma RecoveryReads(d: Disk)
    requires d.leading == 2 && d.header.journalPending && d.index != BTree.NoHeader
    requires GoodHeader(d.header) && Replayable(d)
    ensures Open(d).Some? && |Redone(d)| <= Allocator.MAX_PAGES
    ensures var r, pages, size := Reopened(d), Redone(d), d.header.recordSize;
      && (forall id :: FindRecord(r, id) == ReadScanned(pages, size, |pages|, id))
      && (Anchored(r) <==>
            forall id :: ScanStart(pages, id).Some? ==>
              ScanStart(pages, id).value + CalculatePagesNeeded(size) <= |pages|)
  {
    hide *;
    RecoveredState(d);
    var r, pages, size := Reopened(d), Redone(d), d.header.recordSize;
    assert pages[..|pages|] == pages;
    PagesPerIs(r);
    forall id
      ensures FindRecord(r, id) == ReadScanned(pages, size, |pages|, id)
      ensures KeyStarts(r, id) <==>
        (ScanStart(pages, id).Some? ==> ScanStart(pages, id).value + CalculatePagesNeeded(size) <= |pages|)
    {
      ScanReads(r, |pages|, id);
      StartSpaced(r, id);
    }
    AnchoredWhen(r, pages);
  }

  /** A key that a scan has found is a start when there is space behind it. */
  lemma StartSpaced(r: State, id: int32)
    requires |r.disk.pages| <= Allocator.MAX_PAGES && Start(r, id) == ScanStart(r.disk.pages, id)
    ensures KeyStarts(r, id) <==> (Start(r, id).Some? ==> Start(r, id).value + PagesPer(r) <= |r.disk.pages|)
  {
    hide Start, ScanStart;
  }

  lemma AnchoredWhen(r: State, pages: Store)
    requires HeadersAgree(r.mem, r.disk) && FreeAgrees(r.mem, r.disk)
    requires |pages| <= Allocator.MAX_PAGES && IndexesScan(r.disk.index, pages)
    requires r.mem.header.recordCount == Count(pages, PS_ACTIVE) && !r.mem.header.journalPending
    ensures Anchored(r) <==> forall id :: KeyStarts(r, id)
  {
    hide Allocator.Sound, Count, Operable, KeyStarts, Leaf.Proper, Leaf.Fits, BTree.FirstValue;
    if forall id :: KeyStarts(r, id) {
      IsAnchored(r);
    }
  }

  // ---- Where no two active pages have one id ----

  /** What is read from the first page of an id when the first `k` active pages are indexed. */
  function ReadFirst(pages: Store, size: uint16, dir: Directory, k: nat, id: int32): Option<bytes>
    requires Starts(pages, dir)
  {
    if id in dir && Rank(pages, dir[id]) < k then ReadAt(pages, size, dir[id], id) else None
  }

  lemma ReadsFirst(s: State, dir: Directory, k: nat, id: int32)
    requires Starts(s.disk.pages, dir) && Indexed(s.disk)
    requires forall x :: (x in Dir(s.disk) <==> x in dir && Rank(s.disk.pages, dir[x]) < k)
    requires forall x :: x in Dir(s.disk) ==> Dir(s.disk)[x] == dir[x]
    ensures FindRecord(s, id) == ReadFirst(s.disk.pages, s.mem.header.recordSize, dir, k, id)
  {
    hide DirectoryOf, Singles, Start, FindRecord, ReadAt, Rank, Starts, IsKey;
    FindIs(s, id);
    SameKey(s, id);
    KeyIs(s, id);
  }

  /** A rebuilt index then gives the first thirty-six active pages. */
  lemma ReadScannedStarts(pages: Store, size: uint16, dir: Directory, id: int32)
    requires |pages| <= Allocator.MAX_PAGES && Starts(pages, dir)
    ensures ReadScanned(pages, size, |pages|, id) == ReadFirst(pages, size, dir, MAX_RECORDS, id)
  {
    hide ScanStart, Rank, ReadAt, Starts;
    StartsScan(pages, dir, id);
    assert pages[..|pages|] == pages;
  }

  // ---- ValidateDatabase after an addition ----

  lemma IndexedIs(s: State, k: nat)
    requires k < |s.disk.pages|
    ensures PageIndexed(s.disk, k)
      <==> (s.disk.pages[k].status == PS_ACTIVE ==> Start(s, s.disk.pages[k].id) == Some(k as int))
  {
    hide BTree.LookIn;
  }

  lemma AddKeepsHeader(s: State, data: bytes)
    requires Operable(s) && Room(s)
    ensures var h := Add(s, data).mem.header; h.signature == s.mem.header.signature && h.version == s.mem.header.version
    ensures After(s, Add(s, data)).mem == Add(s, data).mem
  {
    hide ApplyAll, Leaf.Inserted, Allocator.Allocate, RecordWrites, IndexWrites, Spaced, Allocator.ListsFile;
    GrantedRange(s);
  }

  /** A database that validates does so after an addition exactly when the addition succeeds and its id was not a key
      before. */
  lemma AddValidates(s: State, data: bytes)
    requires Anchored(s) && Room(s) && |data| == s.mem.header.recordSize && Validates(s)
    ensures Validates(After(s, Add(s, data))) <==> Add(s, data).ok && !IsKey(s, s.mem.header.nextRecordId)
  {
    hide *;
    AnchoredParts(s);
    AnchoredGrant(s);
    AnchoredAdd(s, data);
    StartAfterAdd(s, data);
    AddKeepsHeader(s, data);
    ValidParts(s);
    var s', id, n, a := After(s, Add(s, data)), s.mem.header.nextRecordId, PagesPer(s), AddAllocation(s);
    var base, slot := s.disk.pages + Empties(a.grown), a.first - 2;
    KeyIs(s, id);
    NewPages(base, slot, id, data, n);
    GrownPages(s.disk.pages, a.grown);
    IndexedIs(s', slot);
    if Add(s, data).ok && !IsKey(s, id) {
      forall k | 0 <= k < |s'.disk.pages| ensures PageIndexed(s'.disk, k) {
        IndexedIs(s', k);
        if k < |s.disk.pages| {
          IndexedIs(s, k);
        }
      }
      AddedCounts(base, slot, id, data, n);
      ExtendedCounts(s.disk.pages, a.grown);
      ValidatesFrom(s');
    } else {
      if IsKey(s, id) {
        StartOf(s, id);
        StartNotEmpty(s.disk.pages, a.grown, n, slot, Start(s, id).value, id);
      }
      if Validates(s') {
        ValidParts(s');
      }
    }
  }

  lemma GrownPages(pages: Store, grown: nat)
    ensures forall k :: 0 <= k < |pages| ==> (pages + Empties(grown))[k] == pages[k]
    ensures forall k :: |pages| <= k < |pages| + grown ==> (pages + Empties(grown))[k].status != PS_ACTIVE
  {
  }

  lemma NewPages(pages: Store, slot: nat, id: int32, data: bytes, n: nat)
    requires n >= 1 && slot + n <= |pages|
    ensures var pages' := WithRun(pages, slot, id, data, n);
      && pages'[slot].status == PS_ACTIVE && pages'[slot].id == id
      && (forall k :: slot < k < slot + n ==> pages'[k].status != PS_ACTIVE)
      && (forall k :: 0 <= k < |pages| && !(slot <= k < slot + n) ==> pages'[k] == pages[k])
  {
    hide WithRun, Chunk;
  }

  lemma ValidParts(s: State)
    requires Validates(s)
    ensures s.mem.header.signature == DB_SIGNATURE && s.mem.header.version == DB_VERSION
    ensures forall k :: 0 <= k < |s.disk.pages| ==> PageIndexed(s.disk, k)
    ensures Count(s.disk.pages, PS_ACTIVE) == s.mem.header.recordCount
  {
    hide PageIndexed, Count;
  }

  lemma ValidatesFrom(s: State)
    requires s.mem.header.signature == DB_SIGNATURE && s.mem.header.version == DB_VERSION
    requires forall k :: 0 <= k < |s.disk.pages| ==> PageIndexed(s.disk, k)
    requires Count(s.disk.pages, PS_ACTIVE) == s.mem.header.recordCount
    ensures Validates(s)
  {
    hide PageIndexed, Count;
  }

  // ---- RebuildIndex after an addition under an id in use ----

  /** Where the scan starts an id of few active pages: at the lowest of them. */
  lemma LowestStart(pages: Store, id: int32, s: nat)
    requires |pages| <= Allocator.MAX_PAGES && Count(pages, PS_ACTIVE) <= MAX_RECORDS
    requires s < |pages| && pages[s].status == PS_ACTIVE && pages[s].id == id
    requires forall t :: 0 <= t < s ==> pages[t].status != PS_ACTIVE || pages[t].id != id
    ensures ScanStart(pages, id) == Some(s as int)
  {
    hide *;
    FewScanned(pages, id);
    LowestIs(pages, id, s);
  }

  lemma NoStart(pages: Store, id: int32)
    requires |pages| <= Allocator.MAX_PAGES
    requires forall t :: 0 <= t < |pages| ==> pages[t].status != PS_ACTIVE || pages[t].id != id
    ensures ScanStart(pages, id) == None
  {
    hide LoadOf;
    var ps := ActivePages(pages, id);
    if ps != [] {
      assert ps[0] in ps;
    }
  }

  /** The active pages after a run was written over empty ones. */
  lemma ActiveBesideNew(pages: Store, dir: Directory, grown: nat, slot: nat, id: int32, data: bytes, n: nat, x: int32)
    requires n >= 1 && Starts(pages, dir) && slot + n <= |pages| + grown && AllEmpty(pages + Empties(grown), slot, n)
    ensures var pages' := WithRun(pages + Empties(grown), slot, id, data, n);
      && pages'[slot].status == PS_ACTIVE && pages'[slot].id == id && (x in dir ==> dir[x] != slot)
      && (x in dir ==> 0 <= dir[x] < |pages'| && pages'[dir[x]].status == PS_ACTIVE && pages'[dir[x]].id == x)
      && forall t :: 0 <= t < |pages'| && pages'[t].status == PS_ACTIVE && pages'[t].id == x ==>
           (x in dir && t == dir[x]) || (x == id && t == slot)
  {
    hide WithRun;
    var base := pages + Empties(grown);
    NewPages(base, slot, id, data, n);
    GrownPages(pages, grown);
    StartsInside(pages, dir);
    if x in dir {
      assert base[dir[x]] == pages[dir[x]];
    }
  }

  /** An addition under an id that is a key already leaves two active pages with that id. Until the index is rebuilt
      lookups give what they gave; afterwards the id reads as the new record exactly when that lies lower. */
  lemma RebuildSwitches(s: State, data: bytes)
    requires Anchored(s) && Indexed(s.disk) && Starts(s.disk.pages, Dir(s.disk)) && |Entries(s.disk)| < MAX_RECORDS
    requires Room(s) && |data| == s.mem.header.recordSize && IsKey(s, s.mem.header.nextRecordId)
    ensures var s1, id := After(s, Add(s, data)), s.mem.header.nextRecordId;
      && |s1.disk.pages| <= Allocator.MAX_PAGES && Start(s, id).Some?
      && forall x ::
           FindRecord(After(s1, Rebuild(s1)), x)
           == if x == id && AddAllocation(s).first - 2 < Start(s, id).value then Some(data) else FindRecord(s, x)
  {
    hide *;
    AnchoredParts(s);
    AnchoredGrant(s);
    AnchoredAdd(s, data);
    var s1, id, n, a, size := After(s, Add(s, data)), s.mem.header.nextRecordId, PagesPer(s), AddAllocation(s),
      s.mem.header.recordSize;
    var base, slot, dir := s.disk.pages + Empties(a.grown), a.first - 2, Dir(s.disk);
    StartsCount(s.disk.pages, dir);
    EntriesOf(s);
    DirectorySize(Entries(s.disk));
    AddedCounts(base, slot, id, data, n);
    ExtendedCounts(s.disk.pages, a.grown);
    KeyIs(s, id);
    RebuildReads(s1);
    forall x
      ensures FindRecord(After(s1, Rebuild(s1)), x)
           == if x == id && slot < Start(s, id).value then Some(data) else FindRecord(s, x)
    {
      ActiveBesideNew(s.disk.pages, dir, a.grown, slot, id, data, n, x);
      ReadScannedIs(s1.disk.pages, size, x);
      FindIs(s, x);
      SameKey(s, x);
      KeyIs(s, x);
      if x == id && slot < dir[x] {
        LowestStart(s1.disk.pages, x, slot);
        ReadWritten(base, size, slot, id, data);
      } else if x in dir {
        LowestStart(s1.disk.pages, x, dir[x]);
        StartOf(s, x);
        StartGrown(s.disk.pages, a.grown, n, dir[x], x);
        ReadElsewhere(s.disk.pages, base, size, dir[x], x);
        ReadBesideNew(base, size, slot, id, data, dir[x], x);
      } else {
        NoStart(s1.disk.pages, x);
      }
    }
  }

  // ---- RebuildIndex after a failed addition ----

  /** AddRecord fails with thirty-six records, but its pages stay behind. A rebuilt index takes the first thirty-six
      of the thirty-seven active pages: so the failed record appears, and the last record of the file goes, unless the
      failed one is itself the last. */
  lemma RebuildAfterFailure(s: State, data: bytes)
    requires Full(s) && Room(s) && |data| == s.mem.header.recordSize && |Entries(s.disk)| == MAX_RECORDS
    ensures !Add(s, data).ok
    ensures var id, dir := s.mem.header.nextRecordId,
      Dir(s.disk)[s.mem.header.nextRecordId := AddAllocation(s).first - 2];
      var s1 := After(s, Add(s, data));
      && |s1.disk.pages| <= Allocator.MAX_PAGES && Starts(s1.disk.pages, dir)
      && var s2 := After(s1, Rebuild(s1));
      forall x :: FindRecord(s2, x) ==
           if x in dir && Rank(s1.disk.pages, dir[x]) < MAX_RECORDS then Some(if x == id then data else Data(s)[x])
           else None
  {
    hide *;
    var id, n, a, size := s.mem.header.nextRecordId, PagesPer(s), AddAllocation(s), s.mem.header.recordSize;
    FullParts(s);
    PartsOf(s);
    AddKeepsCore(s, data);
    CoherentAnchored(s);
    AnchoredGrant(s);
    AnchoredAdd(s, data);
    var s1, dir := After(s, Add(s, data)), Dir(s.disk)[id := a.first - 2];
    OwnedAfterGrant(s.disk.pages, n, Dir(s.disk), a.first, a.free, a.grown, id, data);
    RecordsAfterGrant(s.disk.pages, size, Dir(s.disk), a.first, a.free, a.grown, id, data);
    RunsStart(s1.disk.pages, n, dir);
    FileSize(s1);
    RebuildReads(s1);
    var s2 := After(s1, Rebuild(s1));
    forall x
      ensures FindRecord(s2, x) ==
        if x in dir && Rank(s1.disk.pages, dir[x]) < MAX_RECORDS then Some(if x == id then data else Data(s)[x])
        else None
    {
      ReadScannedStarts(s1.disk.pages, size, dir, x);
      ReadFirstWhole(s1.disk.pages, size, dir, MAX_RECORDS, x);
    }
  }

  lemma FileSize(s: State)
    requires Coherent(s)
    ensures |s.disk.pages| <= Allocator.MAX_PAGES
  {
  }

  lemma FullParts(s: State)
    requires Full(s)
    ensures Core(s) && Coherent(s) && Owned(s.disk.pages, PagesPer(s), Dir(s.disk))
    ensures s.mem.header.nextRecordId !in Dir(s.disk)
  {
    hide Owned, Runs, FreeAgrees, DirectoryOf, Singles;
  }

  lemma ReadFirstWhole(pages: Store, size: uint16, dir: Directory, k: nat, x: int32)
    requires Starts(pages, dir) && Runs(pages, CalculatePagesNeeded(size), dir)
    ensures ReadFirst(pages, size, dir, k, x)
         == if x in dir && Rank(pages, dir[x]) < k then Some(Records(pages, size, dir)[x]) else None
  {
    hide IsRun, Rank, Content;
    if x in dir {
      assert IsRun(pages, dir[x], x, CalculatePagesNeeded(size));
      InRange(pages, dir[x], x, CalculatePagesNeeded(size));
      assert Records(pages, size, dir)[x] == RecordAt(pages, size, dir, x);
    }
  }

  // ---- A crash in RebuildIndex ----

  /** The scan writes the index once for each of the first thirty-six active pages. */
  lemma {:induction false} ScanLength(pages: Store, dir: Directory, k: nat)
    requires k <= |pages| <= Allocator.MAX_PAGES && Starts(pages, dir)
    ensures |ScanWrites(pages, k)| == if Rank(pages, k) < MAX_RECORDS then Rank(pages, k) else MAX_RECORDS
  {
    hide Scanned, Starts, Count, LeafOf;
    if k == 0 {
      NoneCounted(pages);
    } else {
      ScanLength(pages, dir, k - 1);
      ScanStep(pages, dir, k);
      CountNext(pages, k - 1);
    }
  }

  lemma ScanStep(pages: Store, dir: Directory, k: nat)
    requires 0 < k <= |pages| <= Allocator.MAX_PAGES && Starts(pages, dir)
    ensures Scanned(pages, k) != Scanned(pages, k - 1)
      <==> pages[k - 1].status == PS_ACTIVE && Rank(pages, k - 1) < MAX_RECORDS
  {
    hide DirectoryOf, Singles, Leaf.Inserted, Starts, FirstStarts, Rank;
    ScanKeepsFirst(pages, dir, k - 1);
    FirstStartsNext(pages, dir, k);
    if pages[k - 1].status == PS_ACTIVE {
      Enter(Scanned(pages, k - 1), pages[k - 1].id, k + 1);
    }
  }

  /** Some of the scan's writes are the writes of a scan of some of the pages. */
  lemma {:induction false} ScanPrefix(pages: Store, k: nat, t: nat) returns (i: nat)
    requires k <= |pages| <= Allocator.MAX_PAGES && t <= |ScanWrites(pages, k)|
    ensures i <= k && ScanWrites(pages, k)[..t] == ScanWrites(pages, i) && |ScanWrites(pages, i)| == t
  {
    hide Scanned, LeafOf;
    if t == |ScanWrites(pages, k)| {
      i := k;
    } else {
      i := ScanPrefix(pages, k - 1, t);
    }
  }

  /** The index after some of the scan's writes gives as many of the active pages, in their order. */
  lemma ScanReaches(pages: Store, dir: Directory, i: nat)
    requires i <= |pages| <= Allocator.MAX_PAGES && Starts(pages, dir)
    ensures Singles(Scanned(pages, i))
    ensures var t, found := |ScanWrites(pages, i)|, DirectoryOf(Scanned(pages, i));
      && (forall x :: x in found <==> x in dir && Rank(pages, dir[x]) < t)
      && (forall x :: x in found ==> found[x] == dir[x])
  {
    hide DirectoryOf, Singles, Scanned, ScanWrites, Count, Rank, Starts;
    ScanKeepsFirst(pages, dir, i);
    ScanLength(pages, dir, i);
    StartsInside(pages, dir);
    forall x | x in dir ensures dir[x] < i <==> Rank(pages, dir[x]) < Rank(pages, i) {
      if dir[x] < i {
        RankBelow(pages, dir[x], i);
      } else {
        RankUpTo(pages, i, dir[x]);
      }
    }
  }

  /** A crash after `t` writes of RebuildIndex when no transaction is pending, so that nothing repairs the index,
      whatever the pages hold: the first write changes nothing, after the second the database no longer opens, and from
      then on the index is that of a scan of the first `i` pages, which has written it `t - 4` times. */
  lemma RebuildInterrupted(s: State, t: nat) returns (i: nat)
    requires |s.disk.pages| <= Allocator.MAX_PAGES && s.disk.index.Ready?
    requires s.disk.leading == 2 && s.disk.header.signature == DB_SIGNATURE && !s.disk.header.journalPending
    requires t <= |RebuildWrites(s.disk.pages)|
    ensures |RebuildWrites(s.disk.pages)| == 4 + Taken(ActiveIds(s.disk.pages))
    ensures i <= |s.disk.pages| && Taken(ActiveIds(s.disk.pages[..i])) == if t < 4 then 0 else t - 4
    ensures var d := ApplyAll(s.disk, RebuildWrites(s.disk.pages)[..t]);
      && d == s.disk.(index := d.index) && (Open(d).Some? <==> t != 2)
      && (t < 2 ==> d == s.disk)
      && (t > 2 ==> forall id :: FindRecord(Reopened(d), id) == ReadScanned(d.pages, d.header.recordSize, i, id))
  {
    hide *;
    var pages, d := s.disk.pages, ApplyAll(s.disk, RebuildWrites(s.disk.pages)[..t]);
    ScanCount(pages, |pages|);
    assert pages[..|pages|] == pages;
    RebuildSize(pages);
    NothingScanned(pages);
    ApplyNone(s.disk);
    RecreateEffect(s.disk);
    RebuildSplit(pages, t);
    HeaderAgain(s.disk);
    i := 0;
    if t < 4 {
      OpensUnpending(d);
      if t == 3 {
        forall id ensures FindRecord(Reopened(d), id) == ReadScanned(pages, d.header.recordSize, 0, id) {
          NothingRead(Reopened(d), id);
        }
      }
    } else {
      var d1 := ApplyAll(s.disk, Recreate());
      ApplyConcat(s.disk, Recreate(), ScanWrites(pages, |pages|)[..t - 4]);
      i := ScanPrefix(pages, |pages|, t - 4);
      ScanEffect(d1, pages, i);
      ScanCount(pages, i);
      OpensUnpending(d);
      ScanIndexes(pages, i);
      forall id ensures FindRecord(Reopened(d), id) == ReadScanned(pages, d.header.recordSize, i, id) {
        ScanReads(Reopened(d), i, id);
      }
    }
  }

  lemma RebuildSize(pages: Store)
    requires |pages| <= Allocator.MAX_PAGES
    ensures |RebuildWrites(pages)| == 4 + |ScanWrites(pages, |pages|)|
  {
    hide ScanWrites;
  }

  lemma NothingRead(s: State, id: int32)
    requires s.disk.index == BTree.NoLeaf && |s.disk.pages| <= Allocator.MAX_PAGES
    ensures FindRecord(s, id) == ReadScanned(s.disk.pages, s.mem.header.recordSize, 0, id)
  {
    NothingScanned(s.disk.pages);
  }

  /** The same where no two active pages have one id: the index is good for the first `t - 4` active pages. */
  lemma RebuildInterruptedFirst(s: State, dir: Directory, t: nat)
    requires |s.disk.pages| <= Allocator.MAX_PAGES && Starts(s.disk.pages, dir) && s.disk.index.Ready?
    requires s.disk.leading == 2 && s.disk.header.signature == DB_SIGNATURE && !s.disk.header.journalPending
    requires t <= |RebuildWrites(s.disk.pages)|
    ensures var d := ApplyAll(s.disk, RebuildWrites(s.disk.pages)[..t]);
      && |RebuildWrites(s.disk.pages)|
         == 4 + (if Count(s.disk.pages, PS_ACTIVE) < MAX_RECORDS then Count(s.disk.pages, PS_ACTIVE) else MAX_RECORDS)
      && d == s.disk.(index := d.index) && (Open(d).Some? <==> t != 2)
      && (t < 2 ==> d == s.disk)
      && (t > 2 ==> forall id :: FindRecord(Reopened(d), id)
                                 == ReadFirst(d.pages, d.header.recordSize, dir, if t < 4 then 0 else t - 4, id))
  {
    hide *;
    var pages, d := s.disk.pages, ApplyAll(s.disk, RebuildWrites(s.disk.pages)[..t]);
    RebuildLength(pages, dir);
    ApplyNone(s.disk);
    RecreateEffect(s.disk);
    RebuildSplit(pages, t);
    HeaderAgain(s.disk);
    if t < 2 {
      OpensUnpending(d);
    } else if t < 4 {
      OpensUnpending(d);
      if t == 3 {
        forall id ensures FindRecord(Reopened(d), id) == ReadFirst(d.pages, d.header.recordSize, dir, 0, id) {
          NothingFound(Reopened(d), dir, id);
        }
      }
    } else {
      var d1 := ApplyAll(s.disk, Recreate());
      ApplyConcat(s.disk, Recreate(), ScanWrites(pages, |pages|)[..t - 4]);
      var i := ScanPrefix(pages, |pages|, t - 4);
      ScanEffect(d1, pages, i);
      ScanReaches(pages, dir, i);
      OpensUnpending(d);
      IndexedBy(d, Scanned(pages, i));
      forall id ensures FindRecord(Reopened(d), id) == ReadFirst(pages, d.header.recordSize, dir, t - 4, id) {
        ReadsFirst(Reopened(d), dir, t - 4, id);
      }
    }
  }

  lemma RebuildLength(pages: Store, dir: Directory)
    requires |pages| <= Allocator.MAX_PAGES && Starts(pages, dir)
    ensures |RebuildWrites(pages)|
         == 4 + (if Count(pages, PS_ACTIVE) < MAX_RECORDS then Count(pages, PS_ACTIVE) else MAX_RECORDS)
  {
    hide Starts, ScanWrites, Count;
    ScanLength(pages, dir, |pages|);
    assert pages[..|pages|] == pages;
  }

  lemma RebuildSplit(pages: Store, t: nat)
    requires |pages| <= Allocator.MAX_PAGES && t <= |RebuildWrites(pages)|
    ensures var ws := RebuildWrites(pages)[..t];
      && (t == 0 ==> ws == []) && (t == 1 ==> ws == CloseIndex()) && (t == 2 ==> ws == TruncateIndex())
      && (t == 3 ==> ws == HeadIndex())
      && (t >= 4 ==> t - 4 <= |ScanWrites(pages, |pages|)| && ws == Recreate() + ScanWrites(pages, |pages|)[..t - 4])
  {
    hide ScanWrites, CloseIndex, TruncateIndex, HeadIndex, Recreate;
    if t < 4 {
      assert RebuildWrites(pages)[..t] == Recreate()[..t];
    }
  }

  lemma HeaderAgain(d: Disk)
    ensures d.index.Ready? ==> d.(index := BTree.ApplyIndex(d.index, BTree.HeaderWritten)) == d
  {
  }

  lemma OpensUnpending(d: Disk)
    requires d.leading == 2 && !d.header.journalPending && d.header.signature == DB_SIGNATURE
    ensures Open(d).Some? <==> d.index != BTree.NoHeader
    ensures Open(d).Some? ==> Reopened(d) == State(Memory(d.header, d.free, false), d)
  {
    ApplyNone(d);
  }

  lemma MissingFile(d: Disk)
    requires d.leading == 0
    ensures Open(d).None?
  {
  }

  lemma NothingFound(s: State, dir: Directory, id: int32)
    requires s.disk.index == BTree.NoLeaf && Starts(s.disk.pages, dir)
    ensures FindRecord(s, id) == ReadFirst(s.disk.pages, s.disk.header.recordSize, dir, 0, id)
  {
  }

  lemma IndexedBy(d: Disk, es: seq<Leaf.Entry>)
    requires |es| <= 60 && Singles(es) && d.index == BTree.Ready(LeafOf(es))
    ensures Indexed(d) && Entries(d) == es && Dir(d) == DirectoryOf(es)
  {
    hide Singles, DirectoryOf;
  }

  // ---- The copy loop of CompactDatabase over any pages ----

  /** The copy loop, on its way from slot `i` on, takes slot `s` for the start of a record. */
  predicate Visited(pages: Store, n: nat, i: nat, s: nat)
    requires n >= 1 && i <= s < |pages|
    decreases |pages| - i
  {
    if pages[i].status != PS_ACTIVE then i < s && Visited(pages, n, i + 1, s)
    else if s < i + n then s == i
    else Visited(pages, n, i + n, s)
  }

  /** Where an active page lands: as a start, or as a page copied with the start before it. */
  function Landed(pages: Store, n: nat, i: nat, s: nat): nat
    requires n >= 1 && i <= s < |pages|
    decreases |pages| - i
  {
    if pages[i].status != PS_ACTIVE then if s == i then 0 else Landed(pages, n, i + 1, s)
    else if s < i + n then s - i
    else n + Landed(pages, n, i + n, s)
  }

  lemma {:induction false} FirstIsActive(pages: Store, n: nat, i: nat)
    requires n >= 1 && CompactFrom(pages, n, i) != []
    ensures CompactFrom(pages, n, i)[0].status == PS_ACTIVE
    decreases |pages| - i
  {
    hide CopiedRun;
    if i < |pages| && pages[i].status != PS_ACTIVE {
      FirstIsActive(pages, n, i + 1);
    }
  }

  /** One step of the loop. */
  lemma CopyNext(pages: Store, n: nat, i: nat, s: nat)
    requires n >= 1 && i <= s < |pages| && pages[s].status == PS_ACTIVE
    ensures pages[i].status != PS_ACTIVE ==>
      && i < s && CompactFrom(pages, n, i) == CompactFrom(pages, n, i + 1)
      && Landed(pages, n, i, s) == Landed(pages, n, i + 1, s)
      && (Visited(pages, n, i, s) <==> Visited(pages, n, i + 1, s))
    ensures pages[i].status == PS_ACTIVE ==>
      && CompactFrom(pages, n, i) == CopiedRun(pages, i, n) + CompactFrom(pages, n, i + n)
      && (s < i + n ==> Landed(pages, n, i, s) == s - i && (Visited(pages, n, i, s) <==> s == i))
      && (s >= i + n ==>
            && Landed(pages, n, i, s) == n + Landed(pages, n, i + n, s)
            && (Visited(pages, n, i, s) <==> Visited(pages, n, i + n, s)))
  {
    hide CopiedRun;
  }

  lemma {:induction false} Lands(pages: Store, n: nat, i: nat, s: nat)
    requires n >= 1 && i <= s < |pages| && pages[s].status == PS_ACTIVE
    ensures var out, at := CompactFrom(pages, n, i), Landed(pages, n, i, s); at < |out| && out[at] == pages[s]
    decreases |pages| - i
  {
    hide CopiedRun, CompactFrom, Landed, Visited;
    CopyNext(pages, n, i, s);
    if pages[i].status != PS_ACTIVE {
      Lands(pages, n, i + 1, s);
    } else if s >= i + n {
      Lands(pages, n, i + n, s);
    }
  }

  /** A start lands with the pages behind it. */
  lemma {:induction false} LandsWhole(pages: Store, n: nat, i: nat, s: nat)
    requires n >= 1 && i <= s < |pages| && pages[s].status == PS_ACTIVE && Visited(pages, n, i, s)
    ensures var out, at := CompactFrom(pages, n, i), Landed(pages, n, i, s);
      at + n <= |out| && out[at..at + n] == CopiedRun(pages, s, n)
    decreases |pages| - i
  {
    hide CopiedRun, CompactFrom, Landed, Visited;
    CopyNext(pages, n, i, s);
    if pages[i].status != PS_ACTIVE {
      LandsWhole(pages, n, i + 1, s);
    } else if s >= i + n {
      LandsWhole(pages, n, i + n, s);
      SliceBehind(CopiedRun(pages, i, n), CompactFrom(pages, n, i + n), Landed(pages, n, i + n, s), n);
    }
  }

  lemma SliceBehind(a: Store, b: Store, at: nat, n: nat)
    requires at + n <= |b|
    ensures (a + b)[|a| + at..|a| + at + n] == b[at..at + n]
  {
  }

  /** Any other active page lands too near to the next start, or to the end of the file. */
  lemma {:induction false} LandsShort(pages: Store, n: nat, i: nat, s: nat) returns (q: nat)
    requires n >= 1 && i <= s < |pages| && pages[s].status == PS_ACTIVE && !Visited(pages, n, i, s)
    ensures var out, at := CompactFrom(pages, n, i), Landed(pages, n, i, s);
      0 < q < n && (at + q == |out| || (at + q < |out| && out[at + q].status == PS_ACTIVE))
    decreases |pages| - i
  {
    hide CopiedRun, CompactFrom, Landed, Visited;
    CopyNext(pages, n, i, s);
    if pages[i].status != PS_ACTIVE {
      q := LandsShort(pages, n, i + 1, s);
    } else if s < i + n {
      q := n - (s - i);
      if CompactFrom(pages, n, i + n) != [] {
        FirstIsActive(pages, n, i + n);
      }
    } else {
      q := LandsShort(pages, n, i + n, s);
    }
  }

  /** Every active page of the compacted file comes from one of the file before. */
  lemma {:induction false} LandsFrom(pages: Store, n: nat, i: nat, t: nat) returns (s: nat)
    requires n >= 1 && t < |CompactFrom(pages, n, i)| && CompactFrom(pages, n, i)[t].status == PS_ACTIVE
    ensures i <= s < |pages| && pages[s] == CompactFrom(pages, n, i)[t] && Landed(pages, n, i, s) == t
    decreases |pages| - i
  {
    hide CopiedRun;
    if pages[i].status != PS_ACTIVE {
      s := LandsFrom(pages, n, i + 1, t);
    } else if t < n {
      s := i + t;
    } else {
      s := LandsFrom(pages, n, i + n, t - n);
    }
  }

  /** With space behind every active page the compacted file is not longer. */
  lemma {:induction false} NotLonger(pages: Store, n: nat, i: nat)
    requires n >= 1 && i <= |pages|
    requires forall s :: 0 <= s < |pages| && pages[s].status == PS_ACTIVE ==> s + n <= |pages|
    ensures |CompactFrom(pages, n, i)| <= |pages| - i
    decreases |pages| - i
  {
    hide CopiedRun;
    if i < |pages| {
      NotLonger(pages, n, if pages[i].status == PS_ACTIVE then i + n else i + 1);
    }
  }

  /** As many active pages come before each active page as did before. */
  lemma {:induction false} RankLanded(pages: Store, n: nat, i: nat, s: nat)
    requires n >= 1 && i <= s < |pages| && pages[s].status == PS_ACTIVE
    requires forall s :: 0 <= s < |pages| && pages[s].status == PS_ACTIVE ==> s + n <= |pages|
    ensures Landed(pages, n, i, s) <= |CompactFrom(pages, n, i)|
    ensures Count(CompactFrom(pages, n, i)[..Landed(pages, n, i, s)], PS_ACTIVE) == Count(pages[i..s], PS_ACTIVE)
    decreases |pages| - i
  {
    hide CopiedRun, CompactFrom, Landed, Visited, Count;
    CopyNext(pages, n, i, s);
    if pages[i].status != PS_ACTIVE {
      RankLanded(pages, n, i + 1, s);
      SkipInactive(pages, i, s);
    } else {
      assert CopiedRun(pages, i, n) == pages[i..i + n];
      if s < i + n {
        assert CompactFrom(pages, n, i)[..s - i] == pages[i..s];
      } else {
        RankLanded(pages, n, i + n, s);
        CountBehind(pages, i, n, s, CompactFrom(pages, n, i + n), Landed(pages, n, i + n, s));
      }
    }
  }

  lemma SkipInactive(pages: Store, i: nat, s: nat)
    requires i < s <= |pages| && pages[i].status != PS_ACTIVE
    ensures Count(pages[i..s], PS_ACTIVE) == Count(pages[i + 1..s], PS_ACTIVE)
  {
    hide Count;
    CountConcat([pages[i]], pages[i + 1..s], PS_ACTIVE);
    CountUniform([pages[i]], PS_ACTIVE, pages[i].status);
    assert pages[i..s] == [pages[i]] + pages[i + 1..s];
  }

  lemma CountBehind(pages: Store, i: nat, n: nat, s: nat, rest: Store, at: nat)
    requires i + n <= s <= |pages| && at <= |rest|
    requires Count(rest[..at], PS_ACTIVE) == Count(pages[i + n..s], PS_ACTIVE)
    ensures Count((pages[i..i + n] + rest)[..n + at], PS_ACTIVE) == Count(pages[i..s], PS_ACTIVE)
  {
    hide Count;
    CountConcat(pages[i..i + n], pages[i + n..s], PS_ACTIVE);
    CountConcat(pages[i..i + n], rest[..at], PS_ACTIVE);
    assert pages[i..s] == pages[i..i + n] + pages[i + n..s];
    assert (pages[i..i + n] + rest)[..n + at] == pages[i..i + n] + rest[..at];
  }

  function LandedDirectory(pages: Store, n: nat, dir: Directory): Directory
    requires n >= 1 && Starts(pages, dir)
  {
    map id | id in dir :: Landed(pages, n, 0, dir[id])
  }

  lemma LandedStarts(pages: Store, n: nat, dir: Directory)
    requires n >= 1 && Starts(pages, dir)
    ensures Starts(CompactFrom(pages, n, 0), LandedDirectory(pages, n, dir))
  {
    hide CompactFrom, Landed, Visited;
    var out, dir' := CompactFrom(pages, n, 0), LandedDirectory(pages, n, dir);
    forall t | 0 <= t < |out| && out[t].status == PS_ACTIVE ensures out[t].id in dir' && dir'[out[t].id] == t {
      var s := LandsFrom(pages, n, 0, t);
    }
    forall id | id in dir'
      ensures 0 <= dir'[id] < |out| && out[dir'[id]].status == PS_ACTIVE && out[dir'[id]].id == id
    {
      Lands(pages, n, 0, dir[id]);
    }
  }

  /** A record that the loop takes for a start reads as the pages copied; every other active page is no whole run any
      more. */
  lemma ReadLanded(pages: Store, size: uint16, s: nat, id: int32)
    requires s < |pages| && pages[s].status == PS_ACTIVE
    ensures var n := CalculatePagesNeeded(size);
      ReadAt(CompactFrom(pages, n, 0), size, Landed(pages, n, 0, s), id)
        == if Visited(pages, n, 0, s) then ReadAt(CopiedRun(pages, s, n), size, 0, id) else None
  {
    hide CompactFrom, Landed, Visited, ReadAt, CopiedRun, CalculatePagesNeeded;
    var n := CalculatePagesNeeded(size);
    var out, at := CompactFrom(pages, n, 0), Landed(pages, n, 0, s);
    if Visited(pages, n, 0, s) {
      LandsWhole(pages, n, 0, s);
      var run := CopiedRun(pages, s, n);
      assert run[0..n] == run;
      ReadShifted(run, out, size, 0, at, id);
    } else {
      var q := LandsShort(pages, n, 0, s);
      ReadCutOff(out, size, at, id, q);
    }
  }

  /** A run before the end of the file is copied as it is. */
  lemma CopiedWhole(pages: Store, size: uint16, s: nat, id: int32)
    requires s + CalculatePagesNeeded(size) <= |pages| && s < |pages|
    ensures ReadAt(CopiedRun(pages, s, CalculatePagesNeeded(size)), size, 0, id) == ReadAt(pages, size, s, id)
  {
    hide CopiedRun, ReadAt, CalculatePagesNeeded;
    var n := CalculatePagesNeeded(size);
    var run := CopiedRun(pages, s, n);
    assert run == pages[s..s + n];
    assert run[0..n] == run;
    ReadShifted(pages, run, size, s, 0, id);
  }

  lemma ReadCutOff(pages: Store, size: uint16, slot: nat, id: int32, q: nat)
    requires 0 < q < CalculatePagesNeeded(size)
    requires slot + q == |pages| || (slot + q < |pages| && pages[slot + q].status == PS_ACTIVE)
    ensures ReadAt(pages, size, slot, id) == None
  {
    if slot + q < |pages| && IsRun(pages, slot, id, CalculatePagesNeeded(size)) {
      RunPage(pages, slot, id, CalculatePagesNeeded(size), slot + q);
    }
  }

  /** The same pages at another place read the same. */
  lemma ReadShifted(a: Store, b: Store, size: uint16, s: nat, t: nat, id: int32)
    requires var n := CalculatePagesNeeded(size); s + n <= |a| && t + n <= |b| && b[t..t + n] == a[s..s + n]
    ensures ReadAt(b, size, t, id) == ReadAt(a, size, s, id)
  {
    hide Content, IsRun;
    var n := CalculatePagesNeeded(size);
    RunOfSlice(a, s, id, n);
    RunOfSlice(b, t, id, n);
    ShiftedContent(a, b, size, s, t);
  }

  lemma RunOfSlice(pages: Store, slot: nat, id: int32, n: nat)
    requires slot + n <= |pages|
    ensures IsRun(pages, slot, id, n) <==> IsRun(pages[slot..slot + n], 0, id, n)
  {
    var m := pages[slot..slot + n];
    if IsRun(m, 0, id, n) {
      forall j | slot <= j < slot + n ensures pages[j].id == id && pages[j].status == StatusOf(j - slot) {
        assert pages[j] == m[j - slot];
      }
    }
  }

  lemma ShiftedContent(a: Store, b: Store, size: uint16, s: nat, t: nat)
    requires var n := CalculatePagesNeeded(size); s + n <= |a| && t + n <= |b| && b[t..t + n] == a[s..s + n]
    ensures Content(b, t, size) == Content(a, s, size)
  {
    var n := CalculatePagesNeeded(size);
    forall k | 0 <= k < size ensures Content(b, t, size)[k] == Content(a, s, size)[k] {
      PieceOf(k, size);
      assert b[t..t + n][k / DB_PAGE_DATA_SIZE] == a[s..s + n][k / DB_PAGE_DATA_SIZE];
    }
  }

  // ---- CompactDatabase over any pages ----

  lemma {:induction false} NoActiveIds(pages: Store)
    requires forall s :: 0 <= s < |pages| ==> pages[s].status != PS_ACTIVE
    ensures ActiveIds(pages) == []
  {
    if pages != [] {
      NoActiveIds(pages[..|pages| - 1]);
    }
  }

  function From(pages: Store, i: nat): Store {
    if i <= |pages| then pages[i..] else []
  }

  lemma CopiedIds(pages: Store, i: nat, n: nat)
    requires i < |pages|
    ensures ActiveIds(From(pages, i)) == ActiveIds(CopiedRun(pages, i, n)) + ActiveIds(From(pages, i + n))
  {
    hide ActiveIds, CopiedRun;
    var m, run := if i + n <= |pages| then n else |pages| - i, CopiedRun(pages, i, n);
    ActiveIdsConcat(run[..m], run[m..]);
    assert run == run[..m] + run[m..];
    NoActiveIds(run[m..]);
    assert run[..m] == pages[i..i + m];
    ActiveIdsConcat(run[..m], From(pages, i + n));
    assert From(pages, i) == run[..m] + From(pages, i + n);
  }

  lemma SkippedIds(pages: Store, i: nat)
    requires i < |pages| && pages[i].status != PS_ACTIVE
    ensures ActiveIds(From(pages, i)) == ActiveIds(From(pages, i + 1))
  {
    hide ActiveIds;
    ActiveIdsConcat([pages[i]], pages[i + 1..]);
    NoActiveIds([pages[i]]);
    assert pages[i..] == [pages[i]] + pages[i + 1..];
  }

  lemma CompactOnce(pages: Store, n: nat, i: nat)
    requires n >= 1
    ensures i >= |pages| ==> CompactFrom(pages, n, i) == [] == From(pages, i)
    ensures i < |pages| && pages[i].status != PS_ACTIVE ==> CompactFrom(pages, n, i) == CompactFrom(pages, n, i + 1)
    ensures i < |pages| && pages[i].status == PS_ACTIVE ==>
      CompactFrom(pages, n, i) == CopiedRun(pages, i, n) + CompactFrom(pages, n, i + n)
  {
    hide CopiedRun;
  }

  /** Compaction keeps the active pages in their order. */
  lemma {:induction false} CompactedIds(pages: Store, n: nat, i: nat)
    requires n >= 1
    ensures ActiveIds(CompactFrom(pages, n, i)) == ActiveIds(From(pages, i))
    decreases if i < |pages| then |pages| - i else 0
  {
    hide *;
    CompactOnce(pages, n, i);
    if i < |pages| {
      if pages[i].status != PS_ACTIVE {
        CompactedIds(pages, n, i + 1);
        SkippedIds(pages, i);
      } else {
        CompactedIds(pages, n, i + n);
        ActiveIdsConcat(CopiedRun(pages, i, n), CompactFrom(pages, n, i + n));
        CopiedIds(pages, i, n);
      }
    }
  }

  lemma {:induction false} LandedRises(pages: Store, n: nat, i: nat, s: nat, t: nat)
    requires n >= 1 && i <= s < t < |pages| && pages[s].status == PS_ACTIVE && pages[t].status == PS_ACTIVE
    ensures Landed(pages, n, i, s) < Landed(pages, n, i, t)
    decreases |pages| - i
  {
    hide CopiedRun, CompactFrom, Landed, Visited;
    CopyNext(pages, n, i, s);
    CopyNext(pages, n, i, t);
    if pages[i].status != PS_ACTIVE {
      LandedRises(pages, n, i + 1, s, t);
    } else if s >= i + n {
      LandedRises(pages, n, i + n, s, t);
    }
  }

  /** The lowest active page of an id lands as its lowest. */
  lemma LowestLands(pages: Store, n: nat, id: int32)
    requires n >= 1 && |pages| <= Allocator.MAX_PAGES && |CompactFrom(pages, n, 0)| <= Allocator.MAX_PAGES
    ensures var ps, qs := ActivePages(pages, id), ActivePages(CompactFrom(pages, n, 0), id);
      && (ps == [] <==> qs == [])
      && (ps != [] ==>
            && ps[0] in ps && 0 <= ps[0] - 2 < |pages|
            && qs[0] == Landed(pages, n, 0, ps[0] - 2) + 2)
  {
    hide ActivePages, CompactFrom, Landed;
    var out := CompactFrom(pages, n, 0);
    var ps, qs := ActivePages(pages, id), ActivePages(out, id);
    if ps != [] {
      assert ps[0] in ps;
      var s := ps[0] - 2;
      Lands(pages, n, 0, s);
      var at := Landed(pages, n, 0, s);
      forall t | 0 <= t < at && out[t].status == PS_ACTIVE ensures out[t].id != id {
        var f := LandsFrom(pages, n, 0, t);
        if pages[f].id == id {
          NoLower(pages, id, f);
          if f > s {
            LandedRises(pages, n, 0, s, f);
          }
        }
      }
      LowestIs(out, id, at);
    } else if qs != [] {
      assert qs[0] in qs;
      var f := LandsFrom(pages, n, 0, qs[0] - 2);
      NoLower(pages, id, f);
    }
  }

  /** So the scan of the compacted file starts each id where its start has landed. */
  lemma StartLands(pages: Store, n: nat, id: int32)
    requires n >= 1 && |pages| <= Allocator.MAX_PAGES && |CompactFrom(pages, n, 0)| <= Allocator.MAX_PAGES
    ensures ScanStart(CompactFrom(pages, n, 0), id)
         == match ScanStart(pages, id) case None => None case Some(slot) => Some(Landed(pages, n, 0, slot))
  {
    hide ActivePages, CompactFrom, Landed, LoadOf, ActiveIds;
    CompactedIds(pages, n, 0);
    assert From(pages, 0) == pages;
    LowestLands(pages, n, id);
  }

  /** What is read for an id after a compaction: nothing when the start that a scan finds for it is among the pages
      copied with an earlier start, and otherwise what the pages copied from there give. */
  function ReadCompacted(pages: Store, size: uint16, id: int32): (r: Option<bytes>)
    requires |pages| <= Allocator.MAX_PAGES
  {
    var n := CalculatePagesNeeded(size);
    match ScanStart(pages, id)
    case None => None
    case Some(slot) =>
      if Visited(pages, n, 0, slot) then ReadAt(CopiedRun(pages, slot, n), size, 0, id) else None
  }

  /** Compacting a file that may hold anything: the ids keep the starts that a scan finds for them, and so their
      records, unless a start is among the pages copied with an earlier one. A start whose run is not whole so takes
      along the starts within its stretch, and their records are lost. */
  lemma CompactReads(s: State, now: int32, id: int32)
    requires |s.disk.pages| <= Allocator.MAX_PAGES
    requires |CompactFrom(s.disk.pages, PagesPer(s), 0)| <= Allocator.MAX_PAGES
    ensures var pages, n, size := s.disk.pages, PagesPer(s), s.mem.header.recordSize;
      var r, start := FindRecord(After(s, Compact(s, now)), id), ScanStart(pages, id);
      && r == ReadCompacted(pages, size, id)
      && (start.Some? && start.value + n <= |pages| && Visited(pages, n, 0, start.value) ==>
            r == ReadAt(pages, size, start.value, id))
      && (start.Some? && start.value + n <= |pages| && !Visited(pages, n, 0, start.value) ==> r == None)
  {
    hide *;
    var pages, n, size := s.disk.pages, PagesPer(s), s.mem.header.recordSize;
    PagesPerIs(s);
    CompactEffect(s, now);
    var s', out := After(s, Compact(s, now)), CompactFrom(pages, n, 0);
    AfterIs(s, Compact(s, now));
    ScanIndexes(out, |out|);
    assert out[..|out|] == out;
    ScanReads(s', |out|, id);
    StartLands(pages, n, id);
    ReadScannedIs(out, size, id);
    ReadCompactedIs(pages, size, id);
    var start := ScanStart(pages, id);
    if start.Some? {
      ReadLanded(pages, size, start.value, id);
      if start.value + n <= |pages| {
        CopiedWhole(pages, size, start.value, id);
      }
    }
  }

  /** A record that the end of the file cuts off is completed: the pages that are missing are made up of zeros, and its
      id, which nothing was found for, is found after the compaction. */
  lemma CompactCompletes(s: State, now: int32, id: int32)
    requires |s.disk.pages| <= Allocator.MAX_PAGES && s.mem.header.recordSize > 0
    requires |CompactFrom(s.disk.pages, PagesPer(s), 0)| <= Allocator.MAX_PAGES
    requires var start := ScanStart(s.disk.pages, id);
      && start.Some? && start.value < |s.disk.pages| < start.value + PagesPer(s)
      && Visited(s.disk.pages, PagesPer(s), 0, start.value)
      && IsRun(s.disk.pages, start.value, id, |s.disk.pages| - start.value)
    ensures var pages, at, r := s.disk.pages, ScanStart(s.disk.pages, id).value,
                                FindRecord(After(s, Compact(s, now)), id);
      && ReadAt(pages, s.mem.header.recordSize, at, id) == None
      && r.Some? && |r.value| == s.mem.header.recordSize
      && forall k :: 0 <= k < |r.value| ==>
        r.value[k] == if at + k / 506 < |pages| then pages[at + k / 506].data[k % 506] else 0
  {
    hide Compact, CompactFrom, ScanStart, Visited, FindRecord, After;
    var pages, n, size := s.disk.pages, PagesPer(s), s.mem.header.recordSize;
    var at := ScanStart(pages, id).value;
    CompactReads(s, now, id);
    CopiedBeyond(pages, at, id, n);
    var run := CopiedRun(pages, at, n);
    forall k | 0 <= k < size
      ensures Content(run, 0, size)[k] == if at + k / 506 < |pages| then pages[at + k / 506].data[k % 506] else 0
    {
      PieceOf(k, size);
    }
  }

  lemma CopiedBeyond(pages: Store, at: nat, id: int32, n: nat)
    requires at < |pages| < at + n && IsRun(pages, at, id, |pages| - at)
    ensures IsRun(CopiedRun(pages, at, n), 0, id, n) && !IsRun(pages, at, id, n)
  {
    forall j | 0 <= j < n
      ensures CopiedRun(pages, at, n)[j].id == id && CopiedRun(pages, at, n)[j].status == StatusOf(j)
    {
      if at + j < |pages| {
        assert pages[at + j].id == id;
      }
    }
  }

  lemma ReadScannedIs(pages: Store, size: uint16, id: int32)
    requires |pages| <= Allocator.MAX_PAGES
    ensures ReadScanned(pages, size, |pages|, id)
         == match ScanStart(pages, id) case None => None case Some(slot) => ReadAt(pages, size, slot, id)
  {
    hide ScanStart, ReadAt;
    assert pages[..|pages|] == pages;
  }

  lemma ReadCompactedIs(pages: Store, size: uint16, id: int32)
    requires |pages| <= Allocator.MAX_PAGES
    ensures var n := CalculatePagesNeeded(size);
      ReadCompacted(pages, size, id)
      == match ScanStart(pages, id)
         case None => None
         case Some(slot) => if Visited(pages, n, 0, slot) then ReadAt(CopiedRun(pages, slot, n), size, 0, id) else None
  {
    hide ScanStart, ReadAt, Visited, CopiedRun;
  }

  lemma AnchoredStarts(s: State)
    requires Anchored(s) && Indexed(s.disk)
    ensures forall id :: id in Dir(s.disk) ==> StartsAt(s.disk.pages, PagesPer(s), Dir(s.disk)[id], id)
    ensures |s.disk.pages| <= Allocator.MAX_PAGES
  {
    hide DirectoryOf, Singles, Operable, FreeExact, ProperIndex, Start, IsKey, StartsAt;
    AnchoredParts(s);
    forall id | id in Dir(s.disk) ensures StartsAt(s.disk.pages, PagesPer(s), Dir(s.disk)[id], id) {
      SameKey(s, id);
      StartOf(s, id);
    }
  }

  /** An active page within the stretch of an earlier start is passed over. */
  lemma {:induction false} PassedOver(pages: Store, n: nat, i: nat, first: nat, s: nat)
    requires n >= 1 && i <= first < s < |pages| && s < first + n && pages[first].status == PS_ACTIVE
    requires Visited(pages, n, i, first)
    ensures !Visited(pages, n, i, s)
    decreases |pages| - i
  {
    if pages[i].status != PS_ACTIVE {
      PassedOver(pages, n, i + 1, first, s);
    } else if first >= i + n {
      PassedOver(pages, n, i + n, first, s);
    }
  }

  /** So compacting loses every record that starts within the stretch of an earlier start, which needs not be whole. */
  lemma CompactLosesCovered(s: State, now: int32, first: nat, lost: int32)
    requires |s.disk.pages| <= Allocator.MAX_PAGES
    requires |CompactFrom(s.disk.pages, PagesPer(s), 0)| <= Allocator.MAX_PAGES
    requires first < |s.disk.pages| && s.disk.pages[first].status == PS_ACTIVE
    requires Visited(s.disk.pages, PagesPer(s), 0, first)
    requires var start := ScanStart(s.disk.pages, lost); start.Some? && first < start.value < first + PagesPer(s)
    ensures FindRecord(After(s, Compact(s, now)), lost) == None
  {
    hide *;
    PagesPerIs(s);
    CompactReads(s, now, lost);
    PassedOver(s.disk.pages, PagesPer(s), 0, first, ScanStart(s.disk.pages, lost).value);
    ReadCompactedIs(s.disk.pages, s.mem.header.recordSize, lost);
  }

  /** Compacting what recovery leaves when no two active pages have one id: every record is found that was found before,
      but for those whose start is passed over. */
  lemma CompactRecovered(s: State, now: int32, id: int32)
    requires Anchored(s) && Indexed(s.disk) && Starts(s.disk.pages, Dir(s.disk))
    ensures |CompactFrom(s.disk.pages, PagesPer(s), 0)| <= |s.disk.pages| <= Allocator.MAX_PAGES
    ensures id in Dir(s.disk) ==> 0 <= Dir(s.disk)[id] < |s.disk.pages|
    ensures FindRecord(After(s, Compact(s, now)), id)
         == if id in Dir(s.disk) && Visited(s.disk.pages, PagesPer(s), 0, Dir(s.disk)[id]) then FindRecord(s, id)
            else None
  {
    hide *;
    var pages, n, dir := s.disk.pages, PagesPer(s), Dir(s.disk);
    PagesPerIs(s);
    AnchoredStarts(s);
    StartsInside(pages, dir);
    SpaceBehindStarts(pages, n, dir);
    NotLonger(pages, n, 0);
    CompactReads(s, now, id);
    StartsScan(pages, dir, id);
    ReadCompactedIs(pages, s.mem.header.recordSize, id);
    FindIs(s, id);
    SameKey(s, id);
    KeyIs(s, id);
    if id in dir {
      assert StartsAt(pages, n, dir[id], id);
      StartSpace(pages, n, dir[id], id);
      StartsCount(pages, dir);
      EntriesOf(s);
      EntriesFew(s);
      RankBelow(pages, dir[id], |pages|);
      RankOfAll(pages);
    }
  }

  lemma StartSpace(pages: Store, n: nat, slot: int, id: int32)
    requires StartsAt(pages, n, slot, id)
    ensures 0 <= slot && slot + n <= |pages|
  {
  }

  lemma EntriesFew(s: State)
    requires Anchored(s) && Indexed(s.disk)
    ensures |Dir(s.disk)| <= MAX_RECORDS
  {
    hide Anchored, DirectoryOf, Leaf.EntriesSize;
    DirectorySize(Entries(s.disk));
    Leaf.SizeAtLeast(Entries(s.disk));
  }

  /** There are as many active pages as ids with one. */
  lemma {:induction false} StartsCount(pages: Store, dir: Directory)
    requires Starts(pages, dir)
    ensures Count(pages, PS_ACTIVE) == |dir|
  {
    if pages == [] {
      assert dir == map[];
    } else {
      var init, last := pages[..|pages| - 1], pages[|pages| - 1];
      if last.status == PS_ACTIVE {
        StartsInit(pages, dir);
        StartsCount(init, dir - {last.id});
        assert dir.Keys == (dir - {last.id}).Keys + {last.id};
      } else {
        StartsInit(pages, dir);
        StartsCount(init, dir);
      }
    }
  }

  lemma StartsInit(pages: Store, dir: Directory)
    requires Starts(pages, dir) && pages != []
    ensures var init, last := pages[..|pages| - 1], pages[|pages| - 1];
      if last.status == PS_ACTIVE then last.id in dir && Starts(init, dir - {last.id}) else Starts(init, dir)
  {
    var init, last := pages[..|pages| - 1], pages[|pages| - 1];
    assert forall s :: 0 <= s < |init| ==> init[s] == pages[s];
  }

  lemma AfterIs(s: State, o: Outcome)
    ensures After(s, o) == State(o.mem, ApplyAll(s.disk, o.writes))
  {
  }

  lemma PagesPerIs(s: State)
    ensures PagesPer(s) == CalculatePagesNeeded(s.mem.header.recordSize)
  {
  }

  lemma SpaceBehindStarts(pages: Store, n: nat, dir: Directory)
    requires Starts(pages, dir) && forall id :: id in dir ==> StartsAt(pages, n, dir[id], id)
    ensures forall s :: 0 <= s < |pages| && pages[s].status == PS_ACTIVE ==> s + n <= |pages|
  {
    forall s | 0 <= s < |pages| && pages[s].status == PS_ACTIVE ensures s + n <= |pages| {
      assert StartsAt(pages, n, dir[pages[s].id], pages[s].id);
    }
  }

  // ---- A crash in CompactDatabase ----

  lemma {:induction false} StartsUnique(pages: Store, a: Directory, b: Directory)
    requires Starts(pages, a) && Starts(pages, b)
    ensures a == b
  {
    forall id | id in a ensures id in b && b[id] == a[id] {
      assert pages[a[id]].id == id;
    }
    forall id | id in b ensures id in a {
      assert pages[b[id]].id == id;
    }
  }

  /** The compacted file: the same records at their new places, and as many before each as before. */
  lemma CompactedFile(s: State)
    requires Full(s)
    ensures var pages, n, dir := s.disk.pages, PagesPer(s), Dir(s.disk);
      && |CompactFrom(pages, n, 0)| <= Allocator.MAX_PAGES
      && (forall id :: id in dir ==> 0 <= dir[id] <= |pages|)
      && var out, dir' := CompactFrom(pages, n, 0), MovedDirectory(pages, dir);
      && Starts(out, dir') && Runs(out, n, dir') && Count(out, PS_ACTIVE) == |Entries(s.disk)| <= MAX_RECORDS
      && Records(out, s.mem.header.recordSize, dir') == Data(s)
      && forall id :: id in dir ==> Rank(out, dir'[id]) == Rank(pages, dir[id])
  {
    hide *;
    FullParts(s);
    PartsOf(s);
    var pages, n, dir, size := s.disk.pages, PagesPer(s), Dir(s.disk), s.mem.header.recordSize;
    CompactsToInUse(s);
    EntryCount(s);
    MovedRecords(pages, size, dir);
    MovedOwned(pages, n, dir);
    InUseCounts(pages);
    NoneLostCount(s);
    RunsStart(pages, n, dir);
    StartsInside(pages, dir);
    RunsStart(InUse(pages), n, MovedDirectory(pages, dir));
    LandedStarts(pages, n, dir);
    StartsUnique(InUse(pages), MovedDirectory(pages, dir), LandedDirectory(pages, n, dir));
    RunsInside(pages, n, dir);
    forall id | id in dir ensures Rank(InUse(pages), MovedDirectory(pages, dir)[id]) == Rank(pages, dir[id]) {
      RankLanded(pages, n, 0, dir[id]);
      RanksAre(pages, n, dir, id);
    }
  }

  lemma NoneLostCount(s: State)
    requires Full(s)
    ensures Count(s.disk.pages, PS_ACTIVE) == |Entries(s.disk)|
  {
    hide Count, Owned, Core;
  }

  lemma RunsInside(pages: Store, n: nat, dir: Directory)
    requires n >= 1 && Runs(pages, n, dir) && Starts(pages, dir)
    ensures forall s :: 0 <= s < |pages| && pages[s].status == PS_ACTIVE ==> s + n <= |pages|
  {
    forall s | 0 <= s < |pages| && pages[s].status == PS_ACTIVE ensures s + n <= |pages| {
      InRange(pages, dir[pages[s].id], pages[s].id, n);
    }
  }

  lemma RanksAre(pages: Store, n: nat, dir: Directory, id: int32)
    requires n >= 1 && Starts(pages, dir) && id in dir && Landed(pages, n, 0, dir[id]) <= |CompactFrom(pages, n, 0)|
    ensures 0 <= dir[id] <= |pages| && LandedDirectory(pages, n, dir)[id] == Landed(pages, n, 0, dir[id])
    ensures Rank(pages, dir[id]) == Count(pages[0..dir[id]], PS_ACTIVE)
    ensures Rank(CompactFrom(pages, n, 0), Landed(pages, n, 0, dir[id]))
         == Count(CompactFrom(pages, n, 0)[..Landed(pages, n, 0, dir[id])], PS_ACTIVE)
  {
    hide Landed, CompactFrom, Count;
    assert pages[0..dir[id]] == pages[..dir[id]];
  }

  /** Lookups find exactly the given ids, with their records. */
  predicate FindsExactly(r: State, data: map<int32, bytes>, found: set<int32>) {
    forall id :: FindRecord(r, id) == if id in data && id in found then Some(data[id]) else None
  }

  lemma InsideFile(s: State, id: int32)
    requires Coherent(s) && id in Dir(s.disk)
    ensures 0 <= Dir(s.disk)[id] <= |s.disk.pages|
  {
    RunBelow(s, id);
  }

  /** The ids whose records start where they will after compaction. */
  function Unmoved(s: State): set<int32>
    requires Coherent(s)
  {
    set id | id in Dir(s.disk) && (InsideFile(s, id); Position(s.disk.pages, Dir(s.disk)[id]) == Dir(s.disk)[id])
  }

  /** The ids of the first `k` records of the file. */
  function AmongFirst(s: State, k: int): set<int32>
    requires Coherent(s)
  {
    set id | id in Dir(s.disk) && (InsideFile(s, id); Rank(s.disk.pages, Dir(s.disk)[id]) < k)
  }

  lemma CompactHeaders(s: State, now: int32)
    requires Full(s) && !s.mem.header.journalPending
    requires |CompactFrom(s.disk.pages, PagesPer(s), 0)| <= Allocator.MAX_PAGES
    ensures s.mem.header.signature == DB_SIGNATURE && !s.disk.header.journalPending
      && s.disk.header.signature == DB_SIGNATURE
    ensures var h := Compact(s, now).mem.header;
      h.signature == DB_SIGNATURE && !h.journalPending && h.recordSize == s.mem.header.recordSize
    ensures s.disk.header.recordSize == s.mem.header.recordSize && s.disk.index.Ready? && s.disk.leading == 2
  {
    hide Runs, NoneLost, FreeAgrees, DirectoryOf, Singles, CompactFrom, RebuildWrites;
  }

  /** Over the compacted pages the old index finds exactly the records that have not moved. */
  lemma UnmovedFound(s: State, r: State, id: int32)
    requires Full(s) && |CompactFrom(s.disk.pages, PagesPer(s), 0)| <= Allocator.MAX_PAGES
    requires r.disk.pages == CompactFrom(s.disk.pages, PagesPer(s), 0) && r.disk.index == s.disk.index
    requires r.mem.header.recordSize == s.mem.header.recordSize
    ensures FindRecord(r, id) == if id in Data(s) && id in Unmoved(s) then Some(Data(s)[id]) else None
  {
    hide *;
    PartsOf(s);
    var pages, dir, size, out := s.disk.pages, Dir(s.disk), s.mem.header.recordSize, r.disk.pages;
    CompactedFile(s);
    UnmovedIs(s, id);
    FindIs(r, id);
    SameStart(s, r, id);
    SameKey(s, id);
    KeyIs(s, id);
    if id in dir {
      ReadMoved(out, size, MovedDirectory(pages, dir), id, dir[id]);
      MovedTo(pages, dir, id);
    }
  }

  lemma UnmovedIs(s: State, id: int32)
    requires Coherent(s)
    ensures id in Dir(s.disk) ==> 0 <= Dir(s.disk)[id] <= |s.disk.pages|
    ensures id in Unmoved(s) <==> id in Dir(s.disk) && Position(s.disk.pages, Dir(s.disk)[id]) == Dir(s.disk)[id]
  {
    hide Coherent, DirectoryOf, Singles, Position;
    PartsOf(s);
    if id in Dir(s.disk) {
      InsideFile(s, id);
    }
  }

  lemma AmongFirstIs(s: State, k: int, id: int32)
    requires Coherent(s)
    ensures id in Dir(s.disk) ==> 0 <= Dir(s.disk)[id] <= |s.disk.pages|
    ensures id in AmongFirst(s, k) <==> id in Dir(s.disk) && Rank(s.disk.pages, Dir(s.disk)[id]) < k
  {
    hide Coherent, DirectoryOf, Singles, Rank;
    PartsOf(s);
    if id in Dir(s.disk) {
      InsideFile(s, id);
    }
  }

  lemma MovedTo(pages: Store, dir: Directory, id: int32)
    requires (forall x :: x in dir ==> 0 <= dir[x] <= |pages|) && id in dir
    ensures id in MovedDirectory(pages, dir) && MovedDirectory(pages, dir)[id] == Position(pages, dir[id])
  {
    hide Position;
  }

  lemma ReadMoved(pages: Store, size: uint16, dir: Directory, id: int32, slot: int)
    requires Starts(pages, dir) && Runs(pages, CalculatePagesNeeded(size), dir)
    ensures ReadAt(pages, size, slot, id)
         == if id in dir && dir[id] == slot then Some(Records(pages, size, dir)[id]) else None
  {
    hide Content;
    var n := CalculatePagesNeeded(size);
    if IsRun(pages, slot, id, n) {
      RunPage(pages, slot, id, n, slot);
    }
    if id in dir {
      assert IsRun(pages, dir[id], id, n);
      assert Records(pages, size, dir)[id] == RecordAt(pages, size, dir, id);
    }
  }

  /** From the fourth write on the writes of a compaction are those of rebuilding the index over the new pages. */
  lemma CompactPrefix(s: State, now: int32, t: nat)
    requires |CompactFrom(s.disk.pages, PagesPer(s), 0)| <= Allocator.MAX_PAGES && 3 <= t <= |Compact(s, now).writes|
    ensures var ws, pages := Compact(s, now).writes, CompactFrom(s.disk.pages, PagesPer(s), 0);
      var d, d3, k := ApplyAll(s.disk, ws[..t]), ApplyAll(s.disk, ws[..3]), if t < |ws| then t - 3 else t - 4;
      && |ws| == 4 + |RebuildWrites(pages)| && 0 <= k
      && d == ApplyAll(d3, RebuildWrites(pages)[..k]).(free := d.free)
  {
    hide ApplyAll, RebuildWrites, CompactFrom, Compact, Allocator.Refilled, Scanned, LeafOf;
    var ws, pages := Compact(s, now).writes, CompactFrom(s.disk.pages, PagesPer(s), 0);
    CompactEffect(s, now);
    var b, w := RebuildWrites(pages), PutFree(Compact(s, now).mem.free);
    if t < |ws| {
      assert ws[..t] == ws[..3] + b[..t - 3];
      ApplyConcat(s.disk, ws[..3], b[..t - 3]);
    } else {
      assert ws[..t] == ws[..3] + b + [w] && b[..t - 4] == b;
      ApplyConcat(s.disk, ws[..3], b);
      ApplyLast(s.disk, ws[..3] + b, w);
    }
  }

  lemma ScanInterrupted(s: State, now: int32, t: nat)
    requires Full(s) && !s.mem.header.journalPending
    requires |CompactFrom(s.disk.pages, PagesPer(s), 0)| <= Allocator.MAX_PAGES && 4 <= t <= |Compact(s, now).writes|
    ensures var d := ApplyAll(s.disk, Compact(s, now).writes[..t]);
      && d.leading == 2 && d.header == Compact(s, now).mem.header && !d.header.journalPending
      && (Open(d).Some? <==> t != 5)
      && (t == 4 ==> d.pages == CompactFrom(s.disk.pages, PagesPer(s), 0) && d.index == s.disk.index)
      && (t > 5 ==> FindsExactly(Reopened(d), Data(s), AmongFirst(s, t - 7)))
  {
    hide *;
    var ws, pages, size := Compact(s, now).writes, CompactFrom(s.disk.pages, PagesPer(s), 0), s.mem.header.recordSize;
    PartsOf(s);
    CompactedFile(s);
    CompactEffect(s, now);
    CompactHeaders(s, now);
    CompactPrefix(s, now, t);
    var d, d3, k := ApplyAll(s.disk, ws[..t]), ApplyAll(s.disk, ws[..3]), if t < |ws| then t - 3 else t - 4;
    var s3, dir' := State(s.mem, d3), MovedDirectory(s.disk.pages, Dir(s.disk));
    RebuildLength(pages, dir');
    RebuildInterruptedFirst(s3, dir', k);
    var e := ApplyAll(d3, RebuildWrites(pages)[..k]);
    OpensUnpending(d);
    OpensUnpending(e);
    if t > 5 {
      forall id
        ensures FindRecord(Reopened(d), id)
             == if id in Data(s) && id in AmongFirst(s, t - 7) then Some(Data(s)[id]) else None
      {
        AmongFirstIs(s, t - 7, id);
        SameFind(Reopened(d), Reopened(e), id);
        var k' := if k < 4 then 0 else k - 4;
        ReadFirstWhole(pages, size, dir', k', id);
        MovedKeys(s.disk.pages, Dir(s.disk), id);
        if id in Dir(s.disk) {
          RankBounded(s, id);
        }
      }
      FindsExactlyIs(Reopened(d), Data(s), AmongFirst(s, t - 7));
    }
  }

  lemma FindsExactlyIs(r: State, data: map<int32, bytes>, found: set<int32>)
    requires forall id :: FindRecord(r, id) == if id in data && id in found then Some(data[id]) else None
    ensures FindsExactly(r, data, found)
  {
    hide FindRecord;
  }

  lemma SameFind(a: State, b: State, id: int32)
    requires a.disk.pages == b.disk.pages && a.disk.index == b.disk.index
    requires a.mem.header.recordSize == b.mem.header.recordSize
    ensures FindRecord(a, id) == FindRecord(b, id)
  {
  }

  lemma MovedKeys(pages: Store, dir: Directory, id: int32)
    requires forall x :: x in dir ==> 0 <= dir[x] <= |pages|
    ensures id in MovedDirectory(pages, dir) <==> id in dir
  {
  }

  lemma RankBounded(s: State, id: int32)
    requires Full(s) && id in Dir(s.disk)
    ensures 0 <= Dir(s.disk)[id] <= |s.disk.pages| && Rank(s.disk.pages, Dir(s.disk)[id]) < |Entries(s.disk)|
  {
    hide *;
    FullParts(s);
    PartsOf(s);
    NoneLostCount(s);
    RunsStart(s.disk.pages, PagesPer(s), Dir(s.disk));
    StartsInside(s.disk.pages, Dir(s.disk));
    RankBelow(s.disk.pages, Dir(s.disk)[id], |s.disk.pages|);
    RankOfAll(s.disk.pages);
  }

  lemma RankOfAll(pages: Store)
    ensures Rank(pages, |pages|) == Count(pages, PS_ACTIVE)
  {
    assert pages[..|pages|] == pages;
  }

  /** A crash after `t` writes of CompactDatabase, outside a transaction, so that nothing repairs the index. Before
      the first write nothing has happened. Between the removal of the data file and the renaming of the copy there is
      no data file, and the database does not open. Then the old index points into the new file, and exactly the records
      that have not moved are found; after the truncation of the index the database does not open either; and from
      then on the records are found that the scan has come to, in the end all of them. */
  lemma CompactInterrupted(s: State, now: int32, t: nat)
    requires Full(s) && !s.mem.header.journalPending
    requires |CompactFrom(s.disk.pages, PagesPer(s), 0)| <= Allocator.MAX_PAGES && t <= |Compact(s, now).writes|
    ensures |Compact(s, now).writes| == 8 + |Entries(s.disk)|
    ensures var d := ApplyAll(s.disk, Compact(s, now).writes[..t]);
      && !d.header.journalPending && (Open(d).Some? <==> t !in {1, 5})
      && (t == 0 ==> d == s.disk)
      && (t == 1 ==> d.leading == 0)
      && (t in {2, 3, 4} ==> FindsExactly(Reopened(d), Data(s), Unmoved(s)))
      && (t > 5 ==> FindsExactly(Reopened(d), Data(s), AmongFirst(s, t - 7)))
  {
    hide *;
    PartsOf(s);
    var ws, pages, dir := Compact(s, now).writes, CompactFrom(s.disk.pages, PagesPer(s), 0), Dir(s.disk);
    CompactedFile(s);
    CompactEffect(s, now);
    CompactHeaders(s, now);
    RebuildLength(pages, MovedDirectory(s.disk.pages, dir));
    var d := ApplyAll(s.disk, ws[..t]);
    if t >= 4 {
      CompactPrefix(s, now, t);
      ScanInterrupted(s, now, t);
    } else {
      CompactPrefix(s, now, 3);
    }
    if t == 1 {
      MissingFile(d);
    } else if t < 5 {
      OpensUnpending(d);
      if t > 0 {
        forall id
          ensures FindRecord(Reopened(d), id) == if id in Data(s) && id in Unmoved(s) then Some(Data(s)[id]) else None
        {
          UnmovedFound(s, Reopened(d), id);
        }
        FindsExactlyIs(Reopened(d), Data(s), Unmoved(s));
      }
    }
  }
}
