/** Records of several pages: what an operation leaves when the crash comes between its journal entries. */
module Torn {
  import opened Words
  import opened DbTypes
  import opened Pages
  import opened Disk
  import opened Directories
  import opened Engine
  import opened Refinement
  import opened Maintenance
  import opened Journal
  import opened Recovery
  import opened Crash
  import opened Transactions
  import Allocator
  import BTree
  import Compaction
  import opened Anchors
  import Leaf

  /** The first `k` pieces of the new data, and of the rest the old data. */
  function Mixed(was: bytes, data: bytes, k: nat): (r: bytes)
    requires |was| == |data|
    ensures |r| == |data|
    ensures forall j :: 0 <= j < |r| ==> r[j] == if j < k * DB_PAGE_DATA_SIZE then data[j] else was[j]
  {
    var c := if k * DB_PAGE_DATA_SIZE <= |data| then k * DB_PAGE_DATA_SIZE else |data|;
    data[..c] + was[c..]
  }

  /** Such a record is the old one or the new one exactly when the two agree on one side of the cut. */
  lemma MixedIsNeither(was: bytes, data: bytes, k: nat)
    requires |was| == |data| && k * DB_PAGE_DATA_SIZE <= |data|
    ensures Mixed(was, data, k) == was <==> data[..k * DB_PAGE_DATA_SIZE] == was[..k * DB_PAGE_DATA_SIZE]
    ensures Mixed(was, data, k) == data <==> data[k * DB_PAGE_DATA_SIZE..] == was[k * DB_PAGE_DATA_SIZE..]
  {
    var r, c := Mixed(was, data, k), k * DB_PAGE_DATA_SIZE;
    assert r[..c] == data[..c] && r[c..] == was[c..];
    assert was == was[..c] + was[c..] && data == data[..c] + data[c..];
  }

  // ---- The pages ----

  predicate SameShape(a: Store, b: Store) {
    |a| == |b| && forall s :: 0 <= s < |a| ==> a[s].id == b[s].id && a[s].status == b[s].status
  }

  lemma {:induction false} SameCounts(a: Store, b: Store, status: byte)
    requires SameShape(a, b)
    ensures Count(a, status) == Count(b, status)
  {
    if a != [] {
      SameCounts(a[..|a| - 1], b[..|b| - 1], status);
    }
  }

  lemma TornShape(pages: Store, slot: nat, id: int32, data: bytes, n: nat, k: nat)
    requires IsRun(pages, slot, id, n) && k <= n
    ensures slot + k <= |pages| && SameShape(Overwrite(pages, slot, Images(id, data, n)[..k]), pages)
  {
    hide Overwrite, Images;
    var t := Images(id, data, n)[..k];
    assert forall i :: 0 <= i < k ==> t[i] == Image(id, data, i);
  }

  lemma TornContent(pages: Store, slot: nat, id: int32, size: uint16, data: bytes, k: nat)
    requires |data| == size && slot + CalculatePagesNeeded(size) <= |pages| && k <= CalculatePagesNeeded(size)
    ensures Content(Overwrite(pages, slot, Images(id, data, CalculatePagesNeeded(size))[..k]), slot, size)
         == Mixed(Content(pages, slot, size), data, k)
  {
    hide Overwrite, Images, Mixed;
    var t := Images(id, data, CalculatePagesNeeded(size))[..k];
    var pages' := Overwrite(pages, slot, t);
    forall j | 0 <= j < size ensures Content(pages', slot, size)[j] == Mixed(Content(pages, slot, size), data, k)[j] {
      PieceOf(j, size);
      var i := j / DB_PAGE_DATA_SIZE;
      assert i * DB_PAGE_DATA_SIZE + j % DB_PAGE_DATA_SIZE == j;
      if i < k {
        assert t[i] == Image(id, data, i);
      }
    }
  }

  lemma TornRecords(pages: Store, size: uint16, dir: Directory, id: int32, data: bytes, k: nat)
    requires |data| == size > 0 && id in dir && k <= CalculatePagesNeeded(size)
    requires Runs(pages, CalculatePagesNeeded(size), dir)
    ensures var n := CalculatePagesNeeded(size);
      IsRun(pages, dir[id], id, n) && dir[id] >= 0 && dir[id] + k <= |pages| &&
      var pages' := Overwrite(pages, dir[id], Images(id, data, n)[..k]);
      && Runs(pages', n, dir) && SameShape(pages', pages)
      && Records(pages', size, dir) == Records(pages, size, dir)[id := Mixed(Records(pages, size, dir)[id], data, k)]
  {
    hide Overwrite, Content, IsRun, Images, Mixed;
    var n := CalculatePagesNeeded(size);
    InRange(pages, dir[id], id, n);
    var pages' := Overwrite(pages, dir[id], Images(id, data, n)[..k]);
    OthersElsewhere(pages, n, dir, id);
    RecordsElsewhere(pages, pages', size, dir - {id}, dir[id], dir[id] + n);
    TornShape(pages, dir[id], id, data, n, k);
    SameRun(pages, pages', dir[id], id, n);
    TornContent(pages, dir[id], id, size, data, k);
    assert forall x :: x in dir - {id} ==> RecordAt(pages, size, dir - {id}, x) == RecordAt(pages, size, dir, x);
    assert dir == (dir - {id})[id := dir[id]];
    RecordsOf(pages', size, dir - {id}, dir, id, Mixed(Content(pages, dir[id], size), data, k));
  }

  lemma SameRun(a: Store, b: Store, slot: int, id: int32, n: nat)
    requires SameShape(a, b) && IsRun(a, slot, id, n)
    ensures IsRun(b, slot, id, n)
  {
  }

  // ---- A crash in an update ----

  /** The disk when `k` of the update's entries are in the journal. */
  lemma TornDisk(s: State, id: int32, data: bytes, k: nat)
    requires InTransaction(s) && id in Dir(s.disk) && k <= PagesPer(s)
    ensures 0 <= Dir(s.disk)[id] && Dir(s.disk)[id] + PagesPer(s) <= |s.disk.pages| && k <= |Update(s, id, data).writes|
    ensures s.disk.journal.Some?
    ensures var slot, n, d := Dir(s.disk)[id], PagesPer(s), ApplyAll(s.disk, Update(s, id, data).writes[..k]);
      && d.journal.Some? && Named(d.journal.value)
      && d == s.disk.(journal := d.journal)
      && Redone(d) == Overwrite(s.disk.pages, slot, Images(id, data, n)[..k])
  {
    hide *;
    JournaledIn(s);
    UpdateWrites(s, id, data);
    var slot, n := Dir(s.disk)[id], PagesPer(s);
    var es, images := WriteEntries(JO_UPDATE, slot + 2, id, data, n), Images(id, data, n);
    WriteEntriesReplay(JO_UPDATE, slot + 2, id, data, n);
    var d := s.disk.(journal := Some(s.disk.journal.value + es[..k]));
    assert (JournalWrites(es) + PageWrites(slot + 2, images))[..k] == JournalWrites(es)[..k];
    JournalAppended(s.disk, es, k);
    SettledFacts(s.disk);
    JournalPrefix(s.disk.journal.value, es, slot, images, s.disk.pages, k);
    RedoConcat(s.disk.journal.value, es[..k], s.disk.pages);
    RedoWriteEntries(JO_UPDATE, slot + 2, id, data, n, k, s.disk.pages);
    RedoneIs(d);
  }

  lemma SettledFacts(d: Disk)
    requires SettledDisk(d)
    ensures d.journal.Some? && Settled(d.journal.value, d.pages) && Redo(d.journal.value, d.pages) == d.pages
  {
  }

  lemma TornRebuildable(s: State, pages: Store)
    requires Full(s) && SameShape(pages, s.disk.pages)
    ensures Rebuildable(pages, PagesPer(s), Dir(s.disk))
  {
    hide Count, DirectoryOf, Singles;
    SameCounts(pages, s.disk.pages, PS_ACTIVE);
    SameCounts(pages, s.disk.pages, PS_EMPTY);
    DirectorySize(Entries(s.disk));
    EntryCount(s);
    forall id | id in Dir(s.disk) ensures IsRun(pages, Dir(s.disk)[id], id, PagesPer(s)) {
      assert IsRun(s.disk.pages, Dir(s.disk)[id], id, PagesPer(s));
    }
  }

  /** A crash after `k` of an update's journal entries: recovery succeeds and loses no page, every other record is as it
      was, and the updated one has the new data in its first `k` pages and the old data in the others. */
  lemma TornUpdate(s: State, id: int32, data: bytes, k: nat)
    requires InTransaction(s) && |data| == s.mem.header.recordSize && id in Data(s) && k <= PagesPer(s)
    ensures k <= |Update(s, id, data).writes|
    ensures |Data(s)[id]| == |data|
    ensures var d := ApplyAll(s.disk, Update(s, id, data).writes[..k]);
      && (d.header.journalPending ==> d.journal.None? || Replayable(d)) && Open(d).Some?
      && Coherent(Reopened(d)) && NoneLost(Reopened(d))
      && Data(Reopened(d)) == Data(s)[id := Mixed(Data(s)[id], data, k)]
      && Reopened(d).mem.header.nextRecordId == s.mem.header.nextRecordId
      && Reopened(d).mem.header.recordSize == s.mem.header.recordSize
  {
    hide *;
    TransactionFacts(s);
    JournaledIn(s);
    FullFacts(s);
    TornFacts(s);
    TornDisk(s, id, data, k);
    var d, slot, n := ApplyAll(s.disk, Update(s, id, data).writes[..k]), Dir(s.disk)[id], PagesPer(s);
    TornRecords(s.disk.pages, s.mem.header.recordSize, Dir(s.disk), id, data, k);
    TornRebuildable(s, Redone(d));
    TornLength(s.disk.pages, Redone(d));
    RedoneIs(d);
    ReplayableIs(d);
    RecoveryRebuilds(d, Dir(s.disk));
  }

  lemma TornLength(a: Store, b: Store)
    requires SameShape(b, a)
    ensures |a| == |b|
  {
  }

  lemma ReplayableIs(d: Disk)
    requires d.journal.Some? && |Redo(d.journal.value, d.pages)| <= Allocator.MAX_PAGES
    ensures Replayable(d)
  {
  }

  lemma TornFacts(s: State)
    requires Full(s)
    ensures Runs(s.disk.pages, PagesPer(s), Dir(s.disk)) && s.mem.header.recordSize > 0
    ensures Owned(s.disk.pages, PagesPer(s), Dir(s.disk)) && Count(s.disk.pages, PS_ACTIVE) == |Entries(s.disk)|
    ensures PagesPer(s) == CalculatePagesNeeded(s.mem.header.recordSize)
    ensures Data(s) == Records(s.disk.pages, s.mem.header.recordSize, Dir(s.disk))
    ensures forall id :: id in Data(s) ==> |Data(s)[id]| == s.mem.header.recordSize
    ensures s.disk.index != BTree.NoHeader
  {
    hide Count, Owned, Runs, Operable, FreeAgrees, IdsBelow, DirectoryOf, Singles, Content;
    PartsOf(s);
    forall id | id in Data(s) ensures |Data(s)[id]| == s.mem.header.recordSize {
      assert Data(s)[id] == RecordAt(s.disk.pages, s.mem.header.recordSize, Dir(s.disk), id);
    }
  }

  // ---- A crash in a deletion ----

  /** A run of which the first pages are emptied: its record is gone, and its other pages belong to none. */
  lemma ErasedPages(pages: Store, size: uint16, dir: Directory, id: int32, k: nat)
    requires var n := CalculatePagesNeeded(size);
      size > 0 && Runs(pages, n, dir) && Owned(pages, n, dir) && id in dir && 1 <= k <= n
    ensures 0 <= dir[id] && dir[id] + CalculatePagesNeeded(size) <= |pages|
    ensures var n, pages' := CalculatePagesNeeded(size),
      Overwrite(pages, dir[id], Empties(CalculatePagesNeeded(size))[..k]);
      && Runs(pages', n, dir - {id}) && Records(pages', size, dir - {id}) == Records(pages, size, dir) - {id}
      && Starts(pages', dir - {id}) && Count(pages', PS_ACTIVE) == Count(pages, PS_ACTIVE) - 1
      && (k < n ==> !Owned(pages', n, dir - {id}))
  {
    hide *;
    var n, slot := CalculatePagesNeeded(size), dir[id];
    RunOfDirectory(pages, n, dir, id);
    ErasedRun(pages, n, dir, id, k);
    ErasedCount(pages, slot, id, n, k);
    OthersElsewhere(pages, n, dir, id);
    var pages' := Overwrite(pages, slot, Empties(n)[..k]);
    FewerRecords(pages, size, dir, id);
    RecordsElsewhere(pages, pages', size, dir - {id}, slot, slot + n);
  }

  lemma RunOfDirectory(pages: Store, n: nat, dir: Directory, id: int32)
    requires Runs(pages, n, dir) && id in dir
    ensures IsRun(pages, dir[id], id, n) && 0 <= dir[id] && dir[id] + n <= |pages|
  {
  }

  lemma ErasedRun(pages: Store, n: nat, dir: Directory, id: int32, k: nat)
    requires n >= 1 && Runs(pages, n, dir) && Owned(pages, n, dir) && id in dir && 1 <= k <= n
    requires 0 <= dir[id] && dir[id] + n <= |pages|
    ensures var pages' := Overwrite(pages, dir[id], Empties(n)[..k]);
      Starts(pages', dir - {id}) && (k < n ==> !Owned(pages', n, dir - {id}))
  {
    hide Overwrite, Runs, Owned;
    var pages' := Overwrite(pages, dir[id], Empties(n)[..k]);
    RunsStart(pages, n, dir);
    OthersElsewhere(pages, n, dir, id);
    if k < n {
      RunOfDirectory(pages, n, dir, id);
      RunPage(pages, dir[id], id, n, dir[id] + k);
      NotOwned(pages', n, dir - {id}, dir[id] + k);
    }
  }

  lemma NotOwned(pages: Store, n: nat, dir: Directory, s: nat)
    requires s < |pages| && pages[s].status != PS_EMPTY && pages[s].id !in dir
    ensures !Owned(pages, n, dir)
  {
  }

  lemma ErasedCount(pages: Store, slot: nat, id: int32, n: nat, k: nat)
    requires IsRun(pages, slot, id, n) && 1 <= k <= n
    ensures slot + k <= |pages|
    ensures Count(Overwrite(pages, slot, Empties(n)[..k]), PS_ACTIVE) == Count(pages, PS_ACTIVE) - 1
  {
    hide Overwrite, Count;
    var t := Empties(n)[..k];
    assert |t| == k;
    CountSplice(pages, slot, t, PS_ACTIVE);
    CountUniform(t, PS_ACTIVE, PS_EMPTY);
    assert IsRun(pages, slot, id, k);
    CountRun(pages, slot, id, k);
  }

  lemma FewerRecords(pages: Store, size: uint16, dir: Directory, id: int32)
    requires Runs(pages, CalculatePagesNeeded(size), dir)
    ensures Runs(pages, CalculatePagesNeeded(size), dir - {id})
    ensures Records(pages, size, dir - {id}) == Records(pages, size, dir) - {id}
  {
    hide Content;
  }

  /** The disk when `k` of the deletion's entries are in the journal. */
  lemma ErasedDisk(s: State, id: int32, k: nat)
    requires InTransaction(s) && id in Dir(s.disk) && k <= PagesPer(s)
    ensures 0 <= Dir(s.disk)[id] && Dir(s.disk)[id] + PagesPer(s) <= |s.disk.pages| && k <= |Delete(s, id).writes|
    ensures var slot, n, d := Dir(s.disk)[id], PagesPer(s), ApplyAll(s.disk, Delete(s, id).writes[..k]);
      && d.journal.Some? && d == s.disk.(journal := d.journal)
      && Redone(d) == Overwrite(s.disk.pages, slot, Empties(n)[..k])
  {
    hide *;
    JournaledIn(s);
    DeleteWrites(s, id);
    var slot, n := Dir(s.disk)[id], PagesPer(s);
    var es := EraseEntries(slot + 2, id, n);
    var d := s.disk.(journal := Some(s.disk.journal.value + es[..k]));
    assert Delete(s, id).writes[..k] == JournalWrites(es)[..k];
    JournalAppended(s.disk, es, k);
    SettledFacts(s.disk);
    RedoConcat(s.disk.journal.value, es[..k], s.disk.pages);
    RedoEraseEntries(slot + 2, id, n, k, s.disk.pages);
    RedoneIs(d);
  }

  /** A crash after some of a deletion's journal entries: recovery finds the records without the deleted one, but unless
      all entries were there its other pages are lost. */
  lemma TornDelete(s: State, id: int32, k: nat)
    requires InTransaction(s) && id in Data(s) && 1 <= k <= PagesPer(s)
    ensures k <= |Delete(s, id).writes|
    ensures var d := ApplyAll(s.disk, Delete(s, id).writes[..k]);
      && (d.header.journalPending ==> d.journal.None? || Replayable(d)) && Open(d).Some?
      && Coherent(Reopened(d)) && Data(Reopened(d)) == Data(s) - {id}
      && Starts(Reopened(d).disk.pages, Dir(Reopened(d).disk)) && (k < PagesPer(s) ==> !NoneLost(Reopened(d)))
      && Reopened(d).mem.header.nextRecordId == s.mem.header.nextRecordId
      && Reopened(d).mem.header.recordSize == s.mem.header.recordSize
  {
    hide *;
    TransactionFacts(s);
    JournaledIn(s);
    FullFacts(s);
    TornFacts(s);
    ErasedDisk(s, id, k);
    ErasedPages(s.disk.pages, s.mem.header.recordSize, Dir(s.disk), id, k);
    var d := ApplyAll(s.disk, Delete(s, id).writes[..k]);
    RedoneIs(d);
    ReplayableIs(d);
    RecoveredStarts(d, Dir(s.disk) - {id});
    CoherentParts(Reopened(d));
  }

  // ---- A crash in an addition ----

  /** A new run of which the first pages are written: every record is as it was, and without the last page the new one
      is not whole. */
  lemma PartialPages(pages: Store, size: uint16, dir: Directory, slot: nat, id: int32, data: bytes, k: nat)
    requires var n := CalculatePagesNeeded(size);
      && size > 0 && Runs(pages, n, dir) && Owned(pages, n, dir) && id !in dir && 1 <= k <= n
      && slot + n <= |pages| && AllEmpty(pages, slot, n)
    ensures var n, pages' := CalculatePagesNeeded(size),
      Overwrite(pages, slot, Images(id, data, CalculatePagesNeeded(size))[..k]);
      && Runs(pages', n, dir) && Records(pages', size, dir) == Records(pages, size, dir)
      && Starts(pages', dir[id := slot]) && Count(pages', PS_ACTIVE) == Count(pages, PS_ACTIVE) + 1
      && (k < n ==> !IsRun(pages', slot, id, n))
  {
    hide *;
    var n := CalculatePagesNeeded(size);
    AllEmptyIs(pages, slot, n);
    PartialRun(pages, n, dir, slot, id, data, k);
    PartialCount(pages, slot, id, data, n, k);
    EmptyIsFree(pages, n, dir, slot, slot + n);
    RecordsElsewhere(pages, Overwrite(pages, slot, Images(id, data, n)[..k]), size, dir, slot, slot + n);
  }

  lemma AllEmptyIs(pages: Store, slot: nat, n: nat)
    requires AllEmpty(pages, slot, n)
    ensures slot + n <= |pages| && forall s :: slot <= s < slot + n ==> pages[s].status == PS_EMPTY
  {
  }

  lemma PartialRun(pages: Store, n: nat, dir: Directory, slot: nat, id: int32, data: bytes, k: nat)
    requires n >= 1 && Runs(pages, n, dir) && Owned(pages, n, dir) && id !in dir && 1 <= k <= n
    requires slot + n <= |pages| && AllEmpty(pages, slot, n)
    ensures var pages' := Overwrite(pages, slot, Images(id, data, n)[..k]);
      Starts(pages', dir[id := slot]) && (k < n ==> !IsRun(pages', slot, id, n))
  {
    hide Overwrite, Runs, Owned, Images;
    var t := Images(id, data, n)[..k];
    var pages' := Overwrite(pages, slot, t);
    RunsStart(pages, n, dir);
    EmptyIsFree(pages, n, dir, slot, slot + n);
    assert forall i :: 0 <= i < k ==> t[i] == Image(id, data, i);
    assert pages'[slot] == t[0];
    assert k < n ==> pages'[slot + k] == pages[slot + k];
  }

  lemma PartialCount(pages: Store, slot: nat, id: int32, data: bytes, n: nat, k: nat)
    requires slot + n <= |pages| && AllEmpty(pages, slot, n) && 1 <= k <= n
    ensures Count(Overwrite(pages, slot, Images(id, data, n)[..k]), PS_ACTIVE) == Count(pages, PS_ACTIVE) + 1
  {
    hide Overwrite, Count;
    var t := Images(id, data, n)[..k];
    assert t == Images(id, data, k);
    CountSplice(pages, slot, t, PS_ACTIVE);
    CountImages(id, data, k);
    CountUniform(pages[slot..slot + k], PS_ACTIVE, PS_EMPTY);
  }

  /** On disk `d` the file has grown by what was allocated, and replaying the journal gives the first `k` pages. */
  predicate PartlyAdded(disk: Disk, a: Allocator.Allocation, id: int32, data: bytes, n: nat, k: nat, d: Disk) {
    && k <= n && 2 <= a.first && a.first - 2 + n <= |disk.pages| + a.grown <= 0x7FFF_FFFD
    && d.journal.Some? && d == disk.(free := d.free, pages := disk.pages + Empties(a.grown), journal := d.journal)
    && Redone(d) == Overwrite(disk.pages + Empties(a.grown), a.first - 2, Images(id, data, n)[..k])
  }

  lemma PartlyAddedIs(disk: Disk, a: Allocator.Allocation, id: int32, data: bytes, n: nat, k: nat, d: Disk)
    requires k <= n && 2 <= a.first && a.first - 2 + n <= |disk.pages| + a.grown <= 0x7FFF_FFFD && d.journal.Some?
    ensures PartlyAdded(disk, a, id, data, n, k, d) <==>
      && d == disk.(free := d.free, pages := disk.pages + Empties(a.grown), journal := d.journal)
      && Redone(d) == Overwrite(disk.pages + Empties(a.grown), a.first - 2, Images(id, data, n)[..k])
  {
    hide Redone, Overwrite, Images;
  }

  lemma PartlyAddedShape(disk: Disk, a: Allocator.Allocation, id: int32, data: bytes, n: nat, k: nat, d: Disk)
    requires PartlyAdded(disk, a, id, data, n, k, d)
    ensures k <= n && 2 <= a.first && a.first - 2 + n <= |disk.pages| + a.grown <= 0x7FFF_FFFD && d.journal.Some?
  {
    hide Redone, Overwrite, Images;
  }

  /** The disk when `k` of the addition's entries are in the journal. */
  lemma PartialDisk(s: State, data: bytes, k: nat)
    requires InTransaction(s) && Room(s) && |Entries(s.disk)| < MAX_RECORDS && k <= PagesPer(s)
    ensures |AddAllocation(s).writes| + k <= |Add(s, data).writes|
    ensures PartlyAdded(s.disk, AddAllocation(s), s.mem.header.nextRecordId, data, PagesPer(s), k,
                        ApplyAll(s.disk, Add(s, data).writes[..|AddAllocation(s).writes| + k]))
  {
    hide *;
    JournaledIn(s);
    CanAllocate(s);
    AddShape(s, data);
    AllocatedIs(s);
    var a, n, id := AddAllocation(s), PagesPer(s), s.mem.header.nextRecordId;
    var es, pw := WriteEntries(JO_ADD, a.first, id, data, n), PageWrites(a.first, Images(id, data, n));
    var d1 := ApplyAll(s.disk, a.writes);
    var ws :| Add(s, data).writes
      == a.writes + (JournalWrites(es) + pw) + (ws + [PutHeader(After(s, Add(s, data)).disk.header)]);
    assert Add(s, data).writes[..|a.writes| + k] == a.writes + JournalWrites(es)[..k];
    ApplyConcat(s.disk, a.writes, JournalWrites(es)[..k]);
    SettledAllocated(s.disk, d1, a.grown);
    SettledFacts(d1);
    JournalAppended(d1, es, k);
    var d := d1.(journal := Some(d1.journal.value + es[..k]));
    RedoConcat(d1.journal.value, es[..k], d1.pages);
    RedoWriteEntries(JO_ADD, a.first, id, data, n, k, d1.pages);
    RedoneIs(d);
    PartlyAddedIs(s.disk, a, id, data, n, k, d);
  }

  lemma AllocatedIs(s: State)
    requires Coherent(s) && Room(s)
    ensures Allocator.Bounded(s.mem.free) && |s.disk.pages| + PagesPer(s) <= Allocator.MAX_PAGES
    ensures AddAllocation(s) == Allocator.Allocate(s.mem.free, s.disk.pages, PagesPer(s))
    ensures var a, n := AddAllocation(s), PagesPer(s);
      Allocator.Granted(s.disk.pages, n, a.first, a.free, a.grown)
        && AllEmpty(s.disk.pages + Empties(a.grown), a.first - 2, n)
  {
    AllocatedBelow(s);
  }

  /** A crash after some but not all of an addition's journal entries: recovery finds exactly the records that were
      there before. Yet the new record is counted and indexed, and the database validates; its id is given out again,
      although it is a key. */
  lemma TornAdd(s: State, data: bytes, k: nat)
    requires InTransaction(s) && Room(s) && |Entries(s.disk)| < MAX_RECORDS && 1 <= k < PagesPer(s)
    ensures |AddAllocation(s).writes| + k <= |Add(s, data).writes|
    ensures var d := ApplyAll(s.disk, Add(s, data).writes[..|AddAllocation(s).writes| + k]);
      && (d.header.journalPending ==> d.journal.None? || Replayable(d)) && Open(d).Some?
      && (forall id :: FindRecord(Reopened(d), id) == if id in Data(s) then Some(Data(s)[id]) else None)
      && Reopened(d).mem.header.recordCount == |Data(s)| + 1 && Compaction.Validates(Reopened(d))
         && !Coherent(Reopened(d))
      && Reopened(d).mem.header.nextRecordId == s.mem.header.nextRecordId
      && Anchored(Reopened(d)) && Indexed(Reopened(d).disk) && Starts(Reopened(d).disk.pages, Dir(Reopened(d).disk))
      && IsKey(Reopened(d), s.mem.header.nextRecordId)
  {
    hide *;
    TransactionFacts(s);
    JournaledIn(s);
    FullFacts(s);
    TornFacts(s);
    AllocatedIs(s);
    PartialDisk(s, data, k);
    var a, n, size, dir := AddAllocation(s), PagesPer(s), s.mem.header.recordSize, Dir(s.disk);
    OneMoreId(s, s.mem.header.nextRecordId, a.first - 2);
    var base, id, d := s.disk.pages + Empties(a.grown), s.mem.header.nextRecordId,
      ApplyAll(s.disk, Add(s, data).writes[..|a.writes| + k]);
    PartlyAddedShape(s.disk, a, id, data, n, k, d);
    PartlyAddedIs(s.disk, a, id, data, n, k, d);
    Extend(s.disk.pages, size, dir, a.grown);
    ExtendedCounts(s.disk.pages, a.grown);
    PartialPages(base, size, dir, a.first - 2, id, data, k);
    RedoneIs(d);
    ReplayableIs(d);
    RecoveredStarts(d, dir[id := a.first - 2]);
    forall x ensures FindRecord(Reopened(d), x) == if x in Data(s) then Some(Data(s)[x]) else None {
      FindsWhole(Reopened(d), size, dir, id, a.first - 2, Data(s), x);
    }
    AgreedHeader(Reopened(d));
    StartsValidate(Reopened(d));
    NotCoherent(Reopened(d), id);
    SizeKept(s, Reopened(d));
    SpaceForAll(base, n, dir, id, a.first - 2);
    StartsAnchored(Reopened(d));
    SameKey(Reopened(d), id);
  }

  predicate InsideFile(dir: Directory, n: nat, size: nat) {
    forall id :: id in dir ==> dir[id] + n <= size
  }

  lemma SpaceForAll(pages: Store, n: nat, dir: Directory, id: int32, slot: nat)
    requires Runs(pages, n, dir) && slot + n <= |pages|
    ensures InsideFile(dir[id := slot], n, |pages|)
  {
    forall x | x in dir ensures dir[x] + n <= |pages| {
      InRange(pages, dir[x], x, n);
    }
  }

  /** What recovery leaves is anchored when the index gives exactly the active pages, with space behind each. */
  lemma StartsAnchored(r: State)
    requires HeadersAgree(r.mem, r.disk) && FreeAgrees(r.mem, r.disk) && Indexed(r.disk)
    requires Starts(r.disk.pages, Dir(r.disk)) && r.mem.header.recordCount == |Entries(r.disk)|
    requires InsideFile(Dir(r.disk), PagesPer(r), |r.disk.pages|)
    ensures Anchored(r)
  {
    hide DirectoryOf, Allocator.Sound, Count, Start, IsKey, Operable, Leaf.Proper;
    Leaf.SizeAtLeast(Entries(r.disk)) by {
      SinglesProper(Entries(r.disk));
    }
    forall x ensures KeyStarts(r, x) {
      SameKey(r, x);
      KeyIs(r, x);
    }
    IsAnchored(r);
  }

  lemma SinglesProper(es: seq<Leaf.Entry>)
    requires Singles(es)
    ensures Leaf.Proper(es) && Leaf.Fits(es) && forall i :: 0 <= i < |es| ==> es[i].values != []
  {
  }

  /** A search in an index that names a run that is not whole finds the whole ones. */
  lemma FindsWhole(r: State, size: uint16, dir: Directory, id: int32, slot: nat, data: map<int32, bytes>, x: int32)
    requires Indexed(r.disk) && Dir(r.disk) == dir[id := slot] && r.mem.header.recordSize == size && id !in dir
    requires Runs(r.disk.pages, CalculatePagesNeeded(size), dir) && Records(r.disk.pages, size, dir) == data
    requires !IsRun(r.disk.pages, slot, id, CalculatePagesNeeded(size))
    ensures FindRecord(r, x) == if x in data then Some(data[x]) else None
  {
    hide DirectoryOf, Singles, IsRun, Content, Leaf.Found;
    Lookup(Entries(r.disk), x);
    if x in dir {
      assert RecordAt(r.disk.pages, size, dir, x) == data[x];
      InRange(r.disk.pages, dir[x], x, CalculatePagesNeeded(size));
    }
  }

  lemma AgreedHeader(r: State)
    requires HeadersAgree(r.mem, r.disk)
    ensures r.mem.header.signature == DB_SIGNATURE && r.mem.header.version == DB_VERSION
  {
  }

  lemma StartsValidate(r: State)
    requires r.mem.header.signature == DB_SIGNATURE && r.mem.header.version == DB_VERSION
    requires Indexed(r.disk) && Starts(r.disk.pages, Dir(r.disk))
      && r.mem.header.recordCount == Count(r.disk.pages, PS_ACTIVE)
    ensures Compaction.Validates(r)
  {
    hide DirectoryOf, Singles, Leaf.Found, Count;
    forall k | 0 <= k < |r.disk.pages| ensures Compaction.PageIndexed(r.disk, k) {
      Lookup(Entries(r.disk), r.disk.pages[k].id);
    }
  }

  lemma NotCoherent(r: State, id: int32)
    requires Indexed(r.disk) && id in Dir(r.disk)
    requires !IsRun(r.disk.pages, Dir(r.disk)[id], id, CalculatePagesNeeded(r.mem.header.recordSize))
    ensures !Coherent(r)
  {
    hide IsRun, HeadersAgree, FreeAgrees, Indexed, DirectoryOf;
  }

  lemma OneMoreId(s: State, id: int32, slot: int)
    requires Full(s) && id == s.mem.header.nextRecordId
    ensures id !in Dir(s.disk) && |Dir(s.disk)[id := slot]| == |Data(s)| + 1
    ensures Count(s.disk.pages, PS_ACTIVE) == |Entries(s.disk)| == |Data(s)|
    ensures Owned(s.disk.pages, PagesPer(s), Dir(s.disk))
  {
    hide Count, DirectoryOf, Singles, Owned;
    DirectorySize(Entries(s.disk));
    assert |Data(s)| == |Data(s).Keys| && |Dir(s.disk)| == |Dir(s.disk).Keys|;
    assert Dir(s.disk)[id := slot].Keys == Dir(s.disk).Keys + {id};
  }
}
