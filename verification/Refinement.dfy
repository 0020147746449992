/** The record operations keep the storage invariant and act on the plain map of records. */
module Refinement {
  import opened Words
  import opened DbTypes
  import opened Pages
  import opened Disk
  import opened Directories
  import opened Engine
  import Allocator
  import Leaf

  // ---- AddRecord ----

  /** After the run is written the free list still agrees with the pages. */
  lemma FreeAfterGrant(pages: Store, n: uint16, first: int32, free: DBFreeList, grown: nat, id: int32, data: bytes)
    requires n >= 1 && Allocator.Granted(pages, n, first, free, grown)
    ensures var pages' := WithRun(pages + Empties(grown), first - 2, id, data, n);
      Allocator.Sound(free, pages') && free.count == Count(pages', PS_EMPTY) % 0x1_0000
  {
    hide Count, WithRun, Leaf.Distinct;
    var base := pages + Empties(grown);
    AddedCounts(base, first - 2, id, data, n);
    var pages' := WithRun(base, first - 2, id, data, n);
    forall p | p in Allocator.Listed(free) ensures Allocator.EmptyPage(pages', p) {
      assert Allocator.EmptyPage(base, p);
    }
  }

  /** The records after the run of a fresh id is written over granted pages. */
  lemma RecordsAfterGrant(pages: Store, size: uint16, dir: Directory, first: int32, free: DBFreeList, grown: nat,
                          id: int32, data: bytes)
    requires |data| == size > 0 && Runs(pages, CalculatePagesNeeded(size), dir)
    requires Allocator.Granted(pages, CalculatePagesNeeded(size), first, free, grown)
    ensures var n := CalculatePagesNeeded(size);
      var pages' := WithRun(pages + Empties(grown), first - 2, id, data, n);
      && Runs(pages', n, dir)
      && Records(pages', size, dir) == Records(pages, size, dir)
      && (id !in dir ==>
            && Runs(pages', n, dir[id := first - 2])
            && Records(pages', size, dir[id := first - 2]) == Records(pages, size, dir)[id := data])
  {
    hide Records, WithRun, Allocator.Sound, IsRun;
    var n := CalculatePagesNeeded(size);
    Extend(pages, size, dir, grown);
    var base := pages + Empties(grown);
    var pages' := WithRun(base, first - 2, id, data, n);
    EmptyIsFree(base, n, dir, first - 2, first - 2 + n);
    RecordsElsewhere(base, pages', size, dir, first - 2, first - 2 + n);
    if id !in dir {
      AddRun(base, size, dir, first - 2, id, data);
    }
  }

  /** No page is lost when the run of a fresh id is written over granted pages. */
  lemma OwnedAfterGrant(pages: Store, n: uint16, dir: Directory, first: int32, free: DBFreeList, grown: nat,
    id: int32, data: bytes)
    requires n >= 1 && Allocator.Granted(pages, n, first, free, grown) && Owned(pages, n, dir) && id !in dir
    ensures var pages' := WithRun(pages + Empties(grown), first - 2, id, data, n);
      && Owned(pages', n, dir[id := first - 2])
      && Count(pages', PS_ACTIVE) == Count(pages, PS_ACTIVE) + 1
      && Count(pages', PS_EMPTY) == Count(pages, PS_EMPTY) + grown - n
      && |pages'| == |pages| + grown
  {
    hide WithRun, Allocator.Sound, Count;
    var base := pages + Empties(grown);
    assert Owned(base, n, dir);
    AddRunOwned(base, n, dir, first - 2, id, data);
    ExtendedCounts(pages, grown);
    AddedCounts(base, first - 2, id, data, n);
  }

  /** When the next id is not live AddRecord keeps the database coherent whether it succeeds or not. It succeeds
      exactly while fewer than thirty-six records are indexed; then the map gains the new id, and otherwise every
      existing record still reads the same. */
  lemma AddKeeps(s: State, data: bytes)
    requires Coherent(s) && Room(s) && |data| == s.mem.header.recordSize && s.mem.header.nextRecordId !in Data(s)
    ensures var o := Add(s, data);
      && Coherent(After(s, o))
      && (o.ok <==> |Entries(s.disk)| < MAX_RECORDS)
      && Data(After(s, o)) == (if o.ok then Data(s)[s.mem.header.nextRecordId := data] else Data(s))
      && Dir(After(s, o).disk).Keys
         == (if o.ok then Dir(s.disk).Keys + {s.mem.header.nextRecordId} else Dir(s.disk).Keys)
      && o.mem.header.nextRecordId == s.mem.header.nextRecordId + 1
      && After(s, o).disk.header.nextRecordId
         == (if o.ok then o.mem.header.nextRecordId else s.disk.header.nextRecordId)
      && |Entries(After(s, o).disk)| == |Entries(s.disk)| + if o.ok then 1 else 0
  {
    hide Coherent, Operable, Allocator.Granted, Allocator.Sound, Allocator.Allocate, Runs, Records, Count, WithRun,
      Leaf.Inserted, DirectoryOf, Singles, RecordWrites, IndexWrites, WriteEntries, ApplyAll;
    PartsOf(s);
    var id, n, d := s.mem.header.nextRecordId, PagesPer(s), s.disk;
    GrantedRange(s);
    AllocatedBelow(s);
    var a := AddAllocation(s);
    AddEffect(s, data);
    Enter(Entries(d), id, a.first);
    FreeAfterGrant(d.pages, n, a.first, a.free, a.grown, id, data);
    RecordsAfterGrant(d.pages, s.mem.header.recordSize, Dir(d), a.first, a.free, a.grown, id, data);
    CoherentParts(After(s, Add(s, data)));
  }

  /** The core invariant makes the next id new, and AddRecord keeps it. */
  lemma AddKeepsCore(s: State, data: bytes)
    requires Core(s) && Room(s) && |data| == s.mem.header.recordSize
    ensures var o := Add(s, data);
      && Core(After(s, o))
      && (o.ok <==> |Entries(s.disk)| < MAX_RECORDS)
      && s.mem.header.nextRecordId !in Data(s)
      && Data(After(s, o)) == (if o.ok then Data(s)[s.mem.header.nextRecordId := data] else Data(s))
      && o.mem.header.nextRecordId == s.mem.header.nextRecordId + 1
      && After(s, o).disk.header.nextRecordId
         == (if o.ok then o.mem.header.nextRecordId else s.disk.header.nextRecordId)
      && |Entries(After(s, o).disk)| == |Entries(s.disk)| + if o.ok then 1 else 0
  {
    hide Coherent, Operable, Add, ApplyAll, FreeAgrees, Runs, Records, DirectoryOf, Singles;
    PartsOf(s);
    assert s.mem.header.nextRecordId !in Dir(s.disk);
    AddKeeps(s, data);
    var s' := After(s, Add(s, data));
    PartsOf(s');
    forall x | x in Dir(s'.disk) ensures 1 <= x < s'.disk.header.nextRecordId {
    }
  }

  /** A successful AddRecord loses no page. */
  lemma AddKeepsFull(s: State, data: bytes)
    requires Full(s) && Room(s) && |data| == s.mem.header.recordSize && |Entries(s.disk)| < MAX_RECORDS
    ensures Full(After(s, Add(s, data)))
  {
    hide Allocator.Granted, Allocator.Sound, Allocator.Allocate, Runs, Count, WithRun, Leaf.Inserted, DirectoryOf,
      Singles, RecordWrites, IndexWrites, WriteEntries, HeadersAgree, FreeAgrees, IdsBelow, Owned, Add, Records;
    AddKeepsCore(s, data);
    var id, n, d := s.mem.header.nextRecordId, PagesPer(s), s.disk;
    var a := AddAllocation(s);
    AllocatedBelow(s);
    AddEffect(s, data);
    AddMemory(s, data);
    Enter(Entries(d), id, a.first);
    OwnedAfterGrant(d.pages, n, Dir(d), a.first, a.free, a.grown, id, data);
    OneMore(n, |Entries(d)|);
  }

  /** An AddRecord that fails for want of room in the index loses pages: they stay in use by a record that no index
      entry names. So no page is lost exactly when the addition succeeds. */
  lemma FailedAddLosesPages(s: State, data: bytes)
    requires Full(s) && Room(s) && |data| == s.mem.header.recordSize
    ensures Coherent(After(s, Add(s, data)))
    ensures NoneLost(After(s, Add(s, data))) <==> Add(s, data).ok
  {
    hide Allocator.Granted, Allocator.Sound, Allocator.Allocate, Runs, Count, WithRun, Leaf.Inserted, DirectoryOf,
      Singles, RecordWrites, IndexWrites, WriteEntries, HeadersAgree, FreeAgrees, IdsBelow, Add, Records;
    AddKeepsCore(s, data);
    if |Entries(s.disk)| < MAX_RECORDS {
      AddKeepsFull(s, data);
    } else {
      var id, n, a := s.mem.header.nextRecordId, PagesPer(s), AddAllocation(s);
      AllocatedBelow(s);
      GrantedRange(s);
      AddEffect(s, data);
      var s' := After(s, Add(s, data));
      assert s'.disk.pages[a.first - 2] == Image(id, data, 0);
      assert id !in Dir(s'.disk);
    }
  }

  function AddAllocation(s: State): Allocator.Allocation
    requires Operable(s) && Room(s)
  {
    Allocator.Allocate(s.mem.free, s.disk.pages, PagesPer(s))
  }

  lemma AddMemory(s: State, data: bytes)
    requires Core(s) && Room(s)
    ensures Add(s, data).mem.header.recordSize == s.mem.header.recordSize
  {
  }

  lemma OneMore(n: nat, k: nat)
    ensures n * (k + 1) == n * k + n
  {
  }

  // ---- UpdateRecord ----

  lemma EmptyPagesKept(pages: Store, slot: nat, id: int32, data: bytes, n: uint16, f: DBFreeList)
    requires n >= 1 && IsRun(pages, slot, id, n) && Allocator.Sound(f, pages)
    ensures Allocator.Sound(f, WithRun(pages, slot, id, data, n))
  {
    hide WithRun, Leaf.Distinct;
    forall p | p in Allocator.Listed(f) ensures Allocator.EmptyPage(WithRun(pages, slot, id, data, n), p) {
      assert Allocator.EmptyPage(pages, p);
    }
  }

  /** UpdateRecord succeeds exactly on existing ids, replaces that record alone and loses no page. */
  lemma UpdateKeeps(s: State, id: int32, data: bytes)
    requires Coherent(s) && |data| == s.mem.header.recordSize
    ensures var o := Update(s, id, data);
      && Coherent(After(s, o)) && (Core(s) ==> Core(After(s, o))) && (Full(s) ==> Full(After(s, o)))
      && (o.ok <==> id in Data(s))
      && Data(After(s, o)) == (if o.ok then Data(s)[id := data] else Data(s))
      && o.mem == s.mem && Entries(After(s, o).disk) == Entries(s.disk)
  {
    hide Coherent, Operable, Allocator.Sound, Runs, Records, Count, WithRun, DirectoryOf, Singles, RecordWrites,
      WriteEntries, Owned, Update, ApplyAll, IsRun;
    PartsOf(s);
    UpdateIs(s, id, data);
    var n, d, s' := PagesPer(s), s.disk, After(s, Update(s, id, data));
    if id in Dir(d) {
      UpdateEffect(s, id, data);
      UpdateRun(d.pages, s.mem.header.recordSize, Dir(d), id, data);
      EmptyPagesKept(d.pages, Dir(d)[id], id, data, n, s.mem.free);
      UpdatedCounts(d.pages, Dir(d)[id], id, data, n);
      CoherentParts(s');
      if Full(s) {
        UpdateRunOwned(d.pages, n, Dir(d), id, data);
      }
    } else {
      ApplyNone(s.disk);
    }
  }

  // ---- DeleteRecord ----

  lemma FreeAfterRelease(pages: Store, slot: nat, id: int32, n: uint16, f: DBFreeList)
    requires n >= 1 && IsRun(pages, slot, id, n) && slot + 2 < 0x8000_0000
    requires Allocator.Sound(f, pages) && f.count == Count(pages, PS_EMPTY) % 0x1_0000
    ensures var pages', r := WithoutRun(pages, slot, n), Allocator.Release(f, slot + 2, n);
      Allocator.Sound(r, pages') && r.count == Count(pages', PS_EMPTY) % 0x1_0000
  {
    hide WithoutRun, Count;
    EmptiedCounts(pages, slot, id, n);
    Allocator.ReleaseSound(f, pages, WithoutRun(pages, slot, n), slot + 2, n);
  }

  /** DeleteRecord succeeds exactly on existing ids and removes that record alone. */
  lemma DeleteKeeps(s: State, id: int32)
    requires Coherent(s)
    ensures var o := Delete(s, id);
      && Coherent(After(s, o)) && (Core(s) ==> Core(After(s, o)))
      && (o.ok <==> id in Data(s))
      && Data(After(s, o)) == (if o.ok then Data(s) - {id} else Data(s))
      && o.mem.header.nextRecordId == s.mem.header.nextRecordId
      && |Entries(After(s, o).disk)| == |Entries(s.disk)| - if o.ok then 1 else 0
  {
    hide Coherent, Operable, Allocator.Sound, Allocator.Release, Runs, Records, Count, WithoutRun, DirectoryOf,
      Singles, EraseWrites, EraseEntries, IndexWrites, Leaf.Deleted, Owned, Delete, ApplyAll, IsRun;
    PartsOf(s);
    DeleteIs(s, id);
    var n, d, s' := PagesPer(s), s.disk, After(s, Delete(s, id));
    if id in Dir(d) {
      DeleteEffect(s, id);
      DeleteRun(d.pages, s.mem.header.recordSize, Dir(d), id);
      Remove(Entries(d), id);
      FreeAfterRelease(d.pages, Dir(d)[id], id, n, s.mem.free);
      CoherentParts(s');
    } else {
      ApplyNone(s.disk);
    }
  }

  /** A deletion loses no page. */
  lemma DeleteKeepsFull(s: State, id: int32)
    requires Full(s)
    ensures Full(After(s, Delete(s, id)))
  {
    hide Coherent, Core, Operable, Allocator.Sound, Allocator.Release, Runs, Records, Count, WithoutRun, DirectoryOf,
      Singles, EraseWrites, EraseEntries, IndexWrites, Leaf.Deleted, Owned, FreeAgrees, HeadersAgree, IdsBelow,
      Delete, ApplyAll, IsRun;
    DeleteKeeps(s, id);
    PartsOf(s);
    DeleteIs(s, id);
    var n, d := PagesPer(s), s.disk;
    if id in Dir(d) {
      DeleteEffect(s, id);
      DeleteRun(d.pages, s.mem.header.recordSize, Dir(d), id);
      Remove(Entries(d), id);
      EmptiedCounts(d.pages, Dir(d)[id], id, n);
      DeleteRunOwned(d.pages, n, Dir(d), id);
      OneMore(n, |Entries(d)| - 1);
    } else {
      ApplyNone(s.disk);
    }
  }
}
