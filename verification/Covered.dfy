/** A run from creation on after which updating one record destroys another: the first record's addition was cut short
    by a crash, and the second was added to the pages that the first never came to write. */
module Covered {
  import opened Words
  import opened DbTypes
  import opened Pages
  import opened Disk
  import opened Directories
  import opened Engine
  import opened Refinement
  import opened Maintenance
  import opened Scans
  import opened Compaction
  import opened Journal
  import opened Recovery
  import opened Crash
  import opened Transactions
  import opened Torn
  import opened Anchors
  import opened PlainMap
  import opened Upkeep
  import Allocator
  import BTree
  import Leaf

  // ---- What matters of a state of a few records of two pages ----

  datatype Mark = Active(id: int32) | Rest | Free

  function MarkOf(p: DBPage): Mark {
    if p.status == PS_ACTIVE then Active(p.id) else if p.status == PS_EMPTY then Free else Rest
  }

  function Marks(pages: Store): (m: seq<Mark>)
    ensures |m| == |pages| && forall s :: 0 <= s < |pages| ==> m[s] == MarkOf(pages[s])
  {
    seq(|pages|, s requires 0 <= s < |pages| => MarkOf(pages[s]))
  }

  /** The pages, where each key starts, the free list and its count, the next id, and bounds for the entries of the
      index and the number of records. */
  datatype Picture = Picture(marks: seq<Mark>, starts: map<int32, int>, list: seq<int32>, count: nat, next: int32,
    load: nat, records: nat)

  predicate StartsAs(s: State, starts: map<int32, int>) {
    forall x :: Start(s, x) == if x in starts then Some(starts[x]) else None
  }

  predicate Shows(s: State, size: uint16, pic: Picture) {
    && Anchored(s) && s.mem.header.recordSize == size > 0 && CalculatePagesNeeded(size) == 2
    && Marks(s.disk.pages) == pic.marks && StartsAs(s, pic.starts)
    && Allocator.Listed(s.mem.free) == pic.list && s.mem.free.count == pic.count
    && s.mem.header.nextRecordId == pic.next && s.mem.header.recordCount == pic.records
    && Leaf.EntriesSize(s.disk.index.leaf.entries) <= pic.load
  }

  predicate Small(pic: Picture) {
    |pic.marks| <= 100 && 1 <= pic.next <= 100 && pic.records <= 100 && pic.load <= 100
  }

  lemma ShowsParts(s: State, size: uint16, pic: Picture)
    requires Shows(s, size, pic)
    ensures Anchored(s) && Operable(s) && FreeExact(s) && Allocator.Sound(s.mem.free, s.disk.pages)
    ensures s.mem.header.recordSize == size > 0 && CalculatePagesNeeded(size) == 2 == PagesPer(s)
    ensures Marks(s.disk.pages) == pic.marks && |s.disk.pages| == |pic.marks| && StartsAs(s, pic.starts)
    ensures Allocator.Bounded(s.mem.free) && Allocator.Listed(s.mem.free) == pic.list && s.mem.free.count == pic.count
    ensures s.mem.header.nextRecordId == pic.next && s.mem.header.recordCount == pic.records
    ensures ProperIndex(s.disk.index) && Leaf.EntriesSize(s.disk.index.leaf.entries) <= pic.load
    ensures Small(pic) ==> Room(s)
  {
    hide Operable, StartsAs, Leaf.Proper, Leaf.Fits, Leaf.Distinct, AllStart, Count, Marks, Leaf.EntriesSize;
  }

  // ---- The size of the leaf ----

  lemma OneEntry(es: seq<Leaf.Entry>, key: int32)
    requires Leaf.Sorted(es)
    ensures 4 * |Leaf.Values(Leaf.ToMap(es), key)| <= Leaf.EntriesSize(es)
  {
    hide Leaf.EntriesSize, Leaf.ToMap;
    if key in Leaf.ToMap(es) {
      var i := Leaf.MapKey(es, key);
      Leaf.EntriesPrefix(es, i);
    }
  }

  /** Entries of at most a hundred bytes have room for another value. */
  lemma EnterFew(es: seq<Leaf.Entry>, key: int32, value: int32)
    requires Leaf.Proper(es) && Leaf.Fits(es) && |es| <= Leaf.MAX_KEYS && Leaf.EntriesSize(es) <= 100
    ensures var r := Leaf.Inserted(es, key, value);
      r.Some? && Leaf.EntriesSize(r.value) <= Leaf.EntriesSize(es) + 14
  {
    hide Leaf.EntriesSize, Leaf.ToMap, Leaf.Inserted;
    OneEntry(es, key);
    Leaf.InsertSucceeds(es, key, value);
    if value !in Leaf.Values(Leaf.ToMap(es), key) {
      InsertedSize(es, key, value);
    } else {
      InsertedSame(es, key, value);
    }
  }

  lemma InsertedSame(es: seq<Leaf.Entry>, key: int32, value: int32)
    requires Leaf.Sorted(es) && |es| <= Leaf.MAX_KEYS && value in Leaf.Values(Leaf.ToMap(es), key)
    ensures Leaf.Inserted(es, key, value) == Some(es)
  {
    hide Leaf.ToMap;
    Leaf.SearchFinds(es, key, 0);
  }

  lemma DeletedSize(es: seq<Leaf.Entry>, key: int32)
    requires Leaf.Deleted(es, key).Some?
    ensures Leaf.EntriesSize(Leaf.Deleted(es, key).value) <= Leaf.EntriesSize(es)
  {
    hide Leaf.EntriesSize;
    Leaf.SizeOfRemoval(es, Leaf.FindIndex(es, key));
  }

  // ---- One operation ----

  /** What an addition draws, when the run starts in the given slot. */
  function WithRecord(pic: Picture, marks: seq<Mark>, slot: nat): Picture
    requires slot + 2 <= |marks| && pic.next < 0x7FFF_FFFF
  {
    pic.(marks := marks[slot := Active(pic.next)][slot + 1 := Rest],
         starts := if pic.next in pic.starts then pic.starts else pic.starts[pic.next := slot],
         next := pic.next + 1, load := pic.load + 14, records := pic.records + 1)
  }

  lemma AddDraws(s: State, size: uint16, pic: Picture, data: bytes, list: seq<int32>, count: nat)
    requires Shows(s, size, pic) && Small(pic) && |data| == size && Room(s)
    requires var a := AddAllocation(s);
      Allocator.Bounded(a.free) && Allocator.Listed(a.free) == list && a.free.count == count && a.grown <= 2
    ensures var a := AddAllocation(s);
      var marks := pic.marks + seq(a.grown, _ => Free);
      && Add(s, data).ok && 2 <= a.first && a.first <= |marks|
      && Shows(After(s, Add(s, data)), size, WithRecord(pic, marks, a.first - 2).(list := list, count := count))
  {
    hide *;
    ShowsParts(s, size, pic);
    SmallIs(pic);
    AnchoredAdd(s, data);
    AnchoredGrant(s);
    StartAfterAdd(s, data);
    AddReads(s, data);
    AddNext(s, data);
    var a, s', id := AddAllocation(s), After(s, Add(s, data)), s.mem.header.nextRecordId;
    ProperIs(s.disk.index);
    EnterFew(s.disk.index.leaf.entries, id, a.first);
    MarksWith(s.disk.pages, a.grown, a.first - 2, id, data);
    WithRecordIs(pic, pic.marks + seq(a.grown, _ => Free), a.first - 2);
    forall x
      ensures Start(s', x)
           == if x in pic.starts then Some(pic.starts[x]) else if x == id then Some(a.first - 2) else None
    {
      StartsAsIs(s, pic.starts, x);
      KeyIs(s, id);
    }
    ShowsFrom(s', size,
      WithRecord(pic, pic.marks + seq(a.grown, _ => Free), a.first - 2).(list := list, count := count));
  }

  lemma WithRecordIs(pic: Picture, marks: seq<Mark>, slot: nat)
    requires slot + 2 <= |marks| && pic.next < 0x7FFF_FFFF
    ensures var r := WithRecord(pic, marks, slot);
      && r.marks == marks[slot := Active(pic.next)][slot + 1 := Rest] && r.next == pic.next + 1
      && r.load == pic.load + 14 && r.records == pic.records + 1 && r.list == pic.list && r.count == pic.count
      && (forall x :: x in r.starts <==> x in pic.starts || x == pic.next)
      && forall x :: x in r.starts ==> r.starts[x] == if x in pic.starts then pic.starts[x] else slot
  {
  }

  lemma StartsAsIs(s: State, starts: map<int32, int>, x: int32)
    requires StartsAs(s, starts)
    ensures Start(s, x) == if x in starts then Some(starts[x]) else None
  {
    hide Start;
  }

  lemma SmallIs(pic: Picture)
    requires Small(pic)
    ensures |pic.marks| <= 100 && 1 <= pic.next <= 100 && pic.records <= 100 && pic.load <= 100
  {
  }

  lemma AddNext(s: State, data: bytes)
    requires Operable(s) && Room(s)
    ensures Add(s, data).mem.header.nextRecordId == s.mem.header.nextRecordId + 1
    ensures After(s, Add(s, data)).mem == Add(s, data).mem
  {
    hide ApplyAll, Leaf.Inserted, Allocator.Allocate, RecordWrites, IndexWrites, Spaced, Allocator.ListsFile;
    GrantedRange(s);
  }

  lemma ProperIs(f: BTree.IndexFile)
    requires ProperIndex(f)
    ensures f.Ready? && Leaf.Proper(f.leaf.entries) && Leaf.Fits(f.leaf.entries)
      && |f.leaf.entries| <= Leaf.MAX_KEYS
  {
    hide Leaf.Proper, Leaf.Fits;
  }

  lemma MarksWith(pages: Store, grown: nat, slot: nat, id: int32, data: bytes)
    requires slot + 2 <= |pages| + grown
    ensures Marks(WithRun(pages + Empties(grown), slot, id, data, 2))
         == (Marks(pages) + seq(grown, _ => Free))[slot := Active(id)][slot + 1 := Rest]
  {
    hide WithRun, Chunk;
  }

  lemma ShowsFrom(s: State, size: uint16, pic: Picture)
    requires Anchored(s) && s.mem.header.recordSize == size > 0 && CalculatePagesNeeded(size) == 2
    requires Marks(s.disk.pages) == pic.marks
    requires forall x :: Start(s, x) == if x in pic.starts then Some(pic.starts[x]) else None
    requires Allocator.Bounded(s.mem.free) && Allocator.Listed(s.mem.free) == pic.list
      && s.mem.free.count == pic.count
    requires s.mem.header.nextRecordId == pic.next && s.mem.header.recordCount == pic.records
    requires s.disk.index.Ready? && Leaf.EntriesSize(s.disk.index.leaf.entries) <= pic.load
    ensures Shows(s, size, pic)
  {
    hide Anchored, Marks, Allocator.Listed, Leaf.EntriesSize, Start, CalculatePagesNeeded;
  }

  /** With fewer than two pages counted free the file grows. */
  lemma AddGrows(s: State, size: uint16, pic: Picture, data: bytes)
    requires Shows(s, size, pic) && Small(pic) && |data| == size && pic.count < 2
    ensures Operable(s) && Room(s) && Add(s, data).ok
    ensures Shows(After(s, Add(s, data)), size, WithRecord(pic, pic.marks + [Free, Free], |pic.marks|))
  {
    hide *;
    ShowsParts(s, size, pic);
    SmallIs(pic);
    AllocatedNone(s);
    AddDraws(s, size, pic, data, pic.list, pic.count);
    assert seq(2, _ => Free) == [Free, Free];
    SamePicture(WithRecord(pic, pic.marks + [Free, Free], |pic.marks|), pic.list, pic.count);
    WithRecordIs(pic, pic.marks + [Free, Free], |pic.marks|);
  }

  lemma SamePicture(pic: Picture, list: seq<int32>, count: nat)
    ensures list == pic.list && count == pic.count ==> pic.(list := list, count := count) == pic
  {
  }

  lemma AllocatedNone(s: State)
    requires Operable(s) && Room(s) && s.mem.free.count < PagesPer(s)
    ensures var a := AddAllocation(s); a.first == |s.disk.pages| + 2 && a.free == s.mem.free && a.grown == PagesPer(s)
  {
    hide Spaced, Allocator.FindRun, Allocator.Append;
  }

  /** A run that the list gives is taken. */
  lemma AddTakes(s: State, size: uint16, pic: Picture, data: bytes, p: int32)
    requires Shows(s, size, pic) && Small(pic) && |data| == size && pic.count >= 2
    requires Allocator.FindRun(pic.list, 2, 0) == Some(p)
    ensures 2 <= p && p <= |pic.marks|
    ensures Operable(s) && Room(s) && Add(s, data).ok && AddAllocation(s).first == p && AddAllocation(s).grown == 0
    ensures Shows(After(s, Add(s, data)), size,
                  WithRecord(pic, pic.marks, p - 2).(list := Allocator.Outside(pic.list, p, 2), count := pic.count - 2))
  {
    hide *;
    ShowsParts(s, size, pic);
    AllocatedRun(s, p);
    AddDraws(s, size, pic, data, Allocator.Outside(pic.list, p, 2), pic.count - 2);
    assert pic.marks + seq(0, _ => Free) == pic.marks;
  }

  lemma AllocatedRun(s: State, p: int32)
    requires Operable(s) && Room(s) && PagesPer(s) == 2 && Allocator.Sound(s.mem.free, s.disk.pages)
    requires Allocator.Bounded(s.mem.free) && s.mem.free.count >= 2
    requires Allocator.FindRun(Allocator.Listed(s.mem.free), 2, 0) == Some(p)
    ensures var a := AddAllocation(s);
      && a.first == p && a.grown == 0 && Allocator.Bounded(a.free) && a.free.count == s.mem.free.count - 2
      && Allocator.Listed(a.free) == Allocator.Outside(Allocator.Listed(s.mem.free), p, 2)
  {
    hide Spaced, Allocator.FindRun, Allocator.Sound, Allocator.Outside, Allocator.RemoveRun;
    assert s.mem.free.len > 0 by {
      RunFound(Allocator.Listed(s.mem.free), 2);
    }
    Allocator.TakeSound(s.mem.free, s.disk.pages, 2);
  }

  lemma RunFound(list: seq<int32>, n: nat)
    ensures Allocator.FindRun(list, n, 0).Some? ==> |list| > 0
  {
  }

  /** Deleting a record that can be read. */
  lemma DeleteDraws(s: State, size: uint16, pic: Picture, id: int32)
    requires Shows(s, size, pic) && Small(pic) && FindRecord(s, id).Some? && |pic.list| < DB_MAX_FREE_PAGES
    requires pic.count < 1000
    ensures id in pic.starts && 0 <= pic.starts[id] && pic.starts[id] + 2 <= |pic.marks| && Delete(s, id).ok
    ensures pic.records > 0
    ensures var slot := pic.starts[id];
      Shows(After(s, Delete(s, id)), size,
            pic.(marks := pic.marks[slot := Free][slot + 1 := Free], starts := pic.starts - {id},
                 list := pic.list + [slot + 2], count := pic.count + 2, records := pic.records - 1))
  {
    hide *;
    ShowsParts(s, size, pic);
    SmallIs(pic);
    Anchors.WholeRun(s, id);
    WholeUndivided(s, id);
    StartOf(s, id);
    StartsAsIs(s, pic.starts, id);
    KeyIs(s, id);
    AnchoredDelete(s, id);
    DeleteAnchored(s, id);
    var s', slot := After(s, Delete(s, id)), Start(s, id).value;
    DeletedIndex(s, id);
    Allocator.ReleasedList(s.mem.free, slot + 2, 2);
    ListLength(s.mem.free);
    MarksWithout(s.disk.pages, slot);
    var pic' := pic.(marks := pic.marks[slot := Free][slot + 1 := Free], starts := pic.starts - {id},
      list := pic.list + [slot + 2], count := pic.count + 2, records := pic.records - 1);
    forall x ensures Start(s', x) == if x in pic'.starts then Some(pic'.starts[x]) else None {
      StartsAsIs(s, pic.starts, x);
    }
    ShowsFrom(s', size, pic');
  }

  lemma ListLength(f: DBFreeList)
    requires Allocator.Bounded(f)
    ensures |Allocator.Listed(f)| == f.len
  {
  }

  lemma DeletedIndex(s: State, id: int32)
    requires Anchored(s) && IsKey(s, id)
    ensures s.disk.index.Ready? && s.mem.header.recordCount > 0
    ensures var s' := After(s, Delete(s, id));
      && s'.disk.index.Ready? && s'.mem.header.nextRecordId == s.mem.header.nextRecordId
      && s'.mem.header.recordCount == s.mem.header.recordCount - 1
      && Leaf.EntriesSize(s'.disk.index.leaf.entries) <= Leaf.EntriesSize(s.disk.index.leaf.entries)
  {
    hide ApplyAll, WithoutRun, EraseWrites, EraseEntries, IndexWrites, Allocator.Release, ProperIndex, AllStart, Spaced,
      Allocator.ListsFile, BTree.FirstValue, Leaf.Deleted, FreeExact, Leaf.EntriesSize;
    AnchoredParts(s);
    DeleteEffectAt(s, id);
    ProperIs(s.disk.index);
    FirstAfterDelete(s.disk.index.leaf, id);
    DeletedSize(s.disk.index.leaf.entries, id);
  }

  lemma MarksWithout(pages: Store, slot: nat)
    requires slot + 2 <= |pages|
    ensures Marks(WithoutRun(pages, slot, 2)) == Marks(pages)[slot := Free][slot + 1 := Free]
  {
    hide WithoutRun;
  }

  /** The numbers of the pages that are free, among the first `k`. */
  function Numbers(marks: seq<Mark>, k: nat): (r: seq<int32>)
    requires k <= |marks| <= 100
    ensures |r| <= k
  {
    if k == 0 then [] else Numbers(marks, k - 1) + if marks[k - 1] == Free then [k + 1] else []
  }

  lemma {:induction false} EmptyNumbersDraw(pages: Store, k: nat)
    requires k <= |pages| <= 100
    ensures Allocator.EmptyNumbers(pages, k) == Numbers(Marks(pages), k)
  {
    if k > 0 {
      EmptyNumbersDraw(pages, k - 1);
    }
  }

  lemma RefilledDraws(pages: Store)
    requires |pages| <= 100
    ensures Allocator.Listed(Allocator.Refilled(pages)) == Numbers(Marks(pages), |pages|)
    ensures Allocator.Refilled(pages).count == |Numbers(Marks(pages), |pages|)|
  {
    hide Allocator.EmptyNumbers, Numbers, Marks;
    EmptyNumbersDraw(pages, |pages|);
  }

  function Refreshed(pic: Picture): Picture
    requires |pic.marks| <= 100
  {
    var list := Numbers(pic.marks, |pic.marks|);
    pic.(list := list, count := |list|)
  }

  lemma RefreshedIs(pic: Picture)
    requires |pic.marks| <= 100
    ensures var list := Numbers(pic.marks, |pic.marks|); Refreshed(pic) == pic.(list := list, count := |list|)
  {
    hide Numbers;
  }

  lemma RefillDraws(s: State, size: uint16, pic: Picture)
    requires Shows(s, size, pic) && Small(pic)
    ensures |s.disk.pages| <= Allocator.MAX_PAGES && |pic.marks| <= 100
    ensures Shows(After(s, UpdateFree(s)), size, Refreshed(pic))
  {
    hide *;
    ShowsParts(s, size, pic);
    SmallIs(pic);
    AnchoredParts(s);
    AllStartIs(s);
    Allocator.RefilledSound(s.disk.pages);
    RefilledDraws(s.disk.pages);
    RefilledState(s);
    RefreshedIs(pic);
    var s' := After(s, UpdateFree(s));
    SameIndexShows(s, s', size, pic, Refreshed(pic));
  }

  lemma RefilledState(s: State)
    requires |s.disk.pages| <= Allocator.MAX_PAGES
    ensures var f := Allocator.Refilled(s.disk.pages);
      Allocator.Bounded(f) && After(s, UpdateFree(s)) == State(s.mem.(free := f), s.disk.(free := f))
  {
    hide ApplyAll, Allocator.Refilled;
    ApplyOne(s.disk, PutFree(Allocator.Refilled(s.disk.pages)));
  }

  /** Another free list, journal or pending flag draws the same pages and keys. */
  lemma SameIndexShows(s: State, s': State, size: uint16, pic: Picture, pic': Picture)
    requires Shows(s, size, pic)
    requires s'.disk.pages == s.disk.pages && s'.disk.index == s.disk.index && s'.disk.free == s'.mem.free
    requires s'.mem.header.(journalPending := s.mem.header.journalPending) == s.mem.header
    requires s'.mem.journalOpen ==> s'.disk.journal.Some?
    requires Allocator.Sound(s'.mem.free, s.disk.pages)
      && s'.mem.free.count == Count(s.disk.pages, PS_EMPTY) % 0x1_0000
    requires Allocator.Bounded(s'.mem.free)
      && pic' == pic.(list := Allocator.Listed(s'.mem.free), count := s'.mem.free.count)
    ensures Shows(s', size, pic')
  {
    hide *;
    ShowsParts(s, size, pic);
    AnchoredParts(s);
    AllStartIs(s);
    SizeKept(s, s');
    ProperIs(s.disk.index);
    forall x
      ensures KeyStarts(s', x)
      ensures Start(s', x) == if x in pic'.starts then Some(pic'.starts[x]) else None
    {
      StartsAsIs(s, pic.starts, x);
      SameStart(s, s', x);
      KeyStartsIs(s', x);
      if Start(s, x).Some? {
        KeyStartsMeans(s, x);
      }
    }
    IsAnchored(s');
    ShowsFrom(s', size, pic');
  }

  lemma BeginDraws(s: State, size: uint16, pic: Picture)
    requires Shows(s, size, pic)
    ensures Shows(Begun(s), size, pic)
  {
    hide *;
    ShowsParts(s, size, pic);
    AnchoredParts(s);
    FreeParts(s);
    BeginEffect(s);
    BegunIs(s);
    SamePicture(pic, Allocator.Listed(s.mem.free), s.mem.free.count);
    SameIndexShows(s, Begun(s), size, pic, pic);
  }

  lemma BegunIs(s: State)
    ensures Begun(s).mem == s.mem.(header := s.mem.header.(journalPending := true), journalOpen := true)
  {
  }

  // ---- A crash after the first entry of an addition ----

  lemma RecoveredFree(d: Disk)
    requires d.leading == 2 && d.header.journalPending && d.index != BTree.NoHeader
    requires GoodHeader(d.header) && Replayable(d)
    ensures Open(d).Some? && d.journal.Some? && |Redone(d)| <= Allocator.MAX_PAGES
    ensures Reopened(d).mem.free == Allocator.Refilled(Redone(d))
  {
    hide Redo, Allocator.Refilled, Scanned, RedoWrites, RebuildWrites, LeafOf;
    ReplayEffect(d);
  }

  /** The disk when the first entry of the addition is in the journal. */
  function Cut(s: State, data: bytes): Disk
    requires Operable(s) && Room(s) && |AddAllocation(s).writes| + 1 <= |Add(s, data).writes|
  {
    ApplyAll(s.disk, Add(s, data).writes[..|AddAllocation(s).writes| + 1])
  }

  /** Opening succeeds and leaves the pages, with a refilled free list. */
  predicate Leaves(d: Disk, size: uint16, pages: Store) {
    && |pages| <= Allocator.MAX_PAGES
    && Opens(d)
    && Reopened(d).disk.pages == pages && Reopened(d).mem.free == Allocator.Refilled(pages)
    && Reopened(d).mem.header.recordSize == size
  }

  lemma LeavesFrom(d: Disk, size: uint16, pages: Store)
    requires |pages| <= Allocator.MAX_PAGES
    requires Opens(d)
    requires Reopened(d).disk.pages == pages && Reopened(d).mem.free == Allocator.Refilled(pages)
    requires Reopened(d).mem.header.recordSize == size
    ensures Leaves(d, size, pages)
  {
    hide Openable, Open, Reopened, Allocator.Refilled;
  }

  lemma LeavesMeans(d: Disk, size: uint16, pages: Store)
    requires Leaves(d, size, pages)
    ensures |pages| <= Allocator.MAX_PAGES
    ensures Opens(d)
    ensures Reopened(d).disk.pages == pages && Reopened(d).mem.free == Allocator.Refilled(pages)
    ensures Reopened(d).mem.header.recordSize == size
  {
    hide Openable, Open, Reopened, Allocator.Refilled;
  }

  /** The pages after recovery, and the free list. */
  lemma CutPages(s: State, data: bytes)
    requires InTransaction(s) && Room(s) && |Entries(s.disk)| < MAX_RECORDS && PagesPer(s) == 2
    ensures Operable(s) && |AddAllocation(s).writes| + 1 <= |Add(s, data).writes|
    ensures var a := AddAllocation(s);
      && 2 <= a.first && a.first <= |s.disk.pages| + a.grown
      && Leaves(Cut(s, data), s.mem.header.recordSize,
                (s.disk.pages + Empties(a.grown))[a.first - 2 := Image(s.mem.header.nextRecordId, data, 0)])
  {
    hide *;
    JournaledIn(s);
    TransactionFacts(s);
    FullFacts(s);
    CoherentOperable(s);
    PartialDisk(s, data, 1);
    TornFacts(s);
    CutIs(s, data);
    var d, a, id := Cut(s, data), AddAllocation(s), s.mem.header.nextRecordId;
    PartlyAddedShape(s.disk, a, id, data, 2, 1, d);
    PartlyAddedIs(s.disk, a, id, data, 2, 1, d);
    FirstPage(s.disk.pages + Empties(a.grown), a.first - 2, id, data);
    RedoneIs(d);
    ReplayableIs(d);
    RecoveredState(d);
    RecoveredFree(d);
    OpensIs(d);
    LeavesFrom(d, s.mem.header.recordSize, Redone(d));
  }

  lemma CutIs(s: State, data: bytes)
    requires Operable(s) && Room(s) && |AddAllocation(s).writes| + 1 <= |Add(s, data).writes|
    ensures Cut(s, data) == ApplyAll(s.disk, Add(s, data).writes[..|AddAllocation(s).writes| + 1])
  {
    hide ApplyAll, Add;
  }

  lemma CoherentOperable(s: State)
    requires Coherent(s)
    ensures Operable(s)
  {
    hide Operable;
  }

  lemma FirstPage(pages: Store, slot: nat, id: int32, data: bytes)
    requires slot + 2 <= |pages|
    ensures Overwrite(pages, slot, Images(id, data, 2)[..1]) == pages[slot := Image(id, data, 0)]
  {
    hide Images, Overwrite, Chunk;
    var t := Images(id, data, 2)[..1];
    assert t[0] == Image(id, data, 0);
  }

  /** Record 2 behind the two free pages of the deleted record 1. */
  function BeforeCut(load: nat): Picture {
    Picture([Free, Free, Active(2), Rest], map[2 := 2], [2, 3], 2, 3, load, 1)
  }

  /** The start of the unfinished record 3, and a free page where its second one was to go. */
  function AfterCut(): Picture {
    Picture([Active(3), Free, Active(2), Rest], map[3 := 0, 2 := 2], [3], 1, 3, 28, 2)
  }

  lemma TwoStarts(pages: Store, dir: Directory)
    requires Starts(pages, dir) && Marks(pages) == AfterCut().marks
    ensures dir == map[3 := 0, 2 := 2]
  {
    assert |pages| == 4;
    assert MarkOf(pages[0]) == Active(3) && MarkOf(pages[1]) == Free && MarkOf(pages[2]) == Active(2)
      && MarkOf(pages[3]) == Rest;
    assert pages[0].status == PS_ACTIVE && pages[0].id == 3;
    assert pages[2].status == PS_ACTIVE && pages[2].id == 2;
    forall id | id in dir ensures id in {2, 3} {
      assert pages[dir[id]].status == PS_ACTIVE;
    }
  }

  lemma CutMarks(pages: Store, id: int32, data: bytes)
    requires Marks(pages) == BeforeCut(0).marks && id == 3
    ensures Marks((pages + Empties(0))[0 := Image(id, data, 0)]) == AfterCut().marks
  {
    hide Chunk;
    assert pages + Empties(0) == pages;
    var m := Marks(pages[0 := Image(id, data, 0)]);
    assert |m| == 4 && m[0] == Active(3) && m[1] == MarkOf(pages[1]) && m[2] == MarkOf(pages[2])
      && m[3] == MarkOf(pages[3]);
  }

  lemma FreeNumbers()
    ensures Numbers(AfterCut().marks, 4) == [3]
    ensures Numbers(BeforeCut(0).marks, 4) == [2, 3]
  {
    var a, b := AfterCut().marks, BeforeCut(0).marks;
    assert Numbers(a, 1) == [] && Numbers(a, 2) == [3] && Numbers(a, 3) == [3];
    assert Numbers(b, 1) == [2] && Numbers(b, 2) == [2, 3] && Numbers(b, 3) == [2, 3];
  }

  lemma ListedRun(list: seq<int32>, p: int32)
    requires list == [p, p + 1]
    ensures Allocator.FindRun(list, 2, 0) == Some(p)
    ensures Allocator.Outside(list, p, 2) == []
  {
    assert Allocator.RunListed(list, p, 2) by {
      forall q | p < q < p + 2 ensures q in list {
        assert list[1] == q;
      }
    }
    Allocator.OutsideMembers(list, p, 2);
    var r := Allocator.Outside(list, p, 2);
    if r != [] {
      HasElement(r);
    }
  }

  lemma HasElement(r: seq<int32>)
    requires r != []
    ensures exists x :: x in r
  {
    assert r[0] in r;
  }

  /** What recovery leaves of the addition of record 3. */
  lemma CutDraws(s: State, size: uint16, load: nat, data: bytes)
    requires InTransaction(s) && Shows(s, size, BeforeCut(load)) && load <= 100 && |data| == size
    ensures Operable(s) && Room(s) && |AddAllocation(s).writes| + 1 <= |Add(s, data).writes|
    ensures var d := Cut(s, data);
      && Opens(d)
      && Shows(Reopened(d), size, AfterCut())
      && forall id :: FindRecord(Reopened(d), id) == FindRecord(s, id)
  {
    hide *;
    BeforeCutIs(load);
    ShowsParts(s, size, BeforeCut(load));
    JournaledIn(s);
    TransactionFacts(s);
    FullFacts(s);
    CountEntries(s);
    ListedRun([2, 3], 2);
    AllocatedRun(s, 2);
    CutPages(s, data);
    TornAdd(s, data, 1);
    CutIs(s, data);
    var d, pages := Cut(s, data), (s.disk.pages + Empties(0))[0 := Image(3, data, 0)];
    LeavesMeans(d, size, pages);
    var r := Reopened(d);
    CutMarks(s.disk.pages, 3, data);
    AfterCutIs();
    RefilledDraws(pages);
    FreeNumbers();
    Allocator.RefilledSound(pages);
    TwoStarts(pages, Dir(r.disk));
    AnchoredParts(r);
    LoadOfSingles(r);
    SizeKept(s, r);
    CountData(s);
    forall x ensures Start(r, x) == if x in AfterCut().starts then Some(AfterCut().starts[x]) else None {
      SameKey(r, x);
      KeyIs(r, x);
    }
    forall id ensures FindRecord(r, id) == FindRecord(s, id) {
      FindsRecords(s, id);
    }
    ShowsFrom(r, size, AfterCut());
  }

  lemma BeforeCutIs(load: nat)
    ensures BeforeCut(load).marks == BeforeCut(0).marks == [Free, Free, Active(2), Rest]
    ensures BeforeCut(load) == Picture([Free, Free, Active(2), Rest], map[2 := 2], [2, 3], 2, 3, load, 1)
    ensures load <= 100 ==> Small(BeforeCut(load))
  {
  }

  lemma AfterCutIs()
    ensures AfterCut() == Picture([Active(3), Free, Active(2), Rest], map[3 := 0, 2 := 2], [3], 1, 3, 28, 2)
    ensures Small(AfterCut())
  {
  }

  lemma CountEntries(s: State)
    requires Coherent(s)
    ensures s.mem.header.recordCount == |Entries(s.disk)| <= MAX_RECORDS == 36
  {
    hide Operable, Runs;
    EntryCount(s);
  }

  lemma CountData(s: State)
    requires Full(s)
    ensures |Data(s)| == s.mem.header.recordCount
  {
    hide Operable, Runs, Records, DirectoryOf, Singles;
    PartsOf(s);
    DirectorySize(Entries(s.disk));
    assert |Data(s)| == |Data(s).Keys| && |Dir(s.disk)| == |Dir(s.disk).Keys|;
  }

  lemma LoadOfSingles(r: State)
    requires Indexed(r.disk) && Dir(r.disk) == map[3 := 0, 2 := 2]
    ensures r.disk.index.Ready? && Leaf.EntriesSize(r.disk.index.leaf.entries) == 28
  {
    hide DirectoryOf, Leaf.EntriesSize;
    DirectorySize(Entries(r.disk));
    SinglesSize(Entries(r.disk));
    assert Dir(r.disk).Keys == {2, 3};
    assert |Dir(r.disk)| == |Dir(r.disk).Keys|;
  }

  // ---- The run ----

  function Empty(size: uint16): Plain {
    Plain(size, map[], 1, 0, Idle)
  }

  /** Two records are added, the first one is deleted, the free list is refilled, and a transaction begins. */
  function Opening(a: bytes, b: bytes): seq<Op> {
    [AddOp(a), AddOp(b), DeleteOp(1), UpdateFreeOp, BeginOp]
  }

  /** The state after these operations on a new database. */
  predicate Opened(size: uint16, journal: Option<seq<DBJournalEntry>>, a: bytes, b: bytes, s: State)
    requires size > 0
  {
    CreateRepresents(size, journal);
    AllAllowed(Empty(size), Opening(a, b))
    && s == RunOps(Reopened(Created(size, journal)), Empty(size), Opening(a, b)).0
  }

  /** An addition, the deletion of record 2 and another addition lead from `r` to `t`. */
  predicate GoesOn(r: State, d: bytes, e: bytes, t: State) {
    Operable(r) && Room(r) &&
    var r1 := After(r, Add(r, d));
    Operable(r1) &&
    var r2 := After(r1, Delete(r1, 2));
    Operable(r2) && Room(r2) && t == After(r2, Add(r2, e))
  }

  lemma RunStep(s: State, p: Plain, ops: seq<Op>)
    requires Represents(s, p) && AllAllowed(p, ops) && ops != []
    ensures Allowed(p, ops[0]) && Coherent(s) && Enabled(s, ops[0])
    ensures var s1, p1 := Step(s, ops[0]).0, PlainStep(p, ops[0]).0;
      && Represents(s1, p1) && AllAllowed(p1, ops[1..]) && RunOps(s, p, ops).0 == RunOps(s1, p1, ops[1..]).0
  {
    hide Represents, Step, PlainStep, Allowed, Enabled;
    StepRefines(s, p, ops[0]);
  }

  lemma RunNothing(s: State, p: Plain)
    requires Represents(s, p)
    ensures RunOps(s, p, []).0 == s
  {
  }

  lemma OpeningAllowed(size: uint16, a: bytes, b: bytes)
    requires size > 0 && |a| == |b| == size && CalculatePagesNeeded(size) == 2
    ensures AllAllowed(Empty(size), Opening(a, b))
  {
    var p1 := Plain(size, map[1 := a], 2, 2, Idle);
    var p2 := Plain(size, map[1 := a, 2 := b], 3, 4, Idle);
    var p3 := Plain(size, map[2 := b], 3, 4, Idle);
    assert PlainStep(Empty(size), AddOp(a)).0 == p1;
    assert |map[1 := a]| == 1;
    assert PlainStep(p1, AddOp(b)).0 == p2;
    assert PlainStep(p2, DeleteOp(1)).0 == p3;
    assert AllAllowed(p3, [UpdateFreeOp, BeginOp]) by {
      assert AllAllowed(p3, [BeginOp]);
    }
    assert AllAllowed(p2, [DeleteOp(1), UpdateFreeOp, BeginOp]);
    assert AllAllowed(p1, [AddOp(b), DeleteOp(1), UpdateFreeOp, BeginOp]);
  }

  /** The plain map during these operations. */
  lemma PlainOpening(size: uint16, a: bytes, b: bytes)
    requires size > 0 && |a| == |b| == size && CalculatePagesNeeded(size) == 2
    ensures Allowed(Empty(size), AddOp(a))
    ensures var p1 := PlainStep(Empty(size), AddOp(a)).0;
      Allowed(p1, AddOp(b)) &&
      var p2 := PlainStep(p1, AddOp(b)).0;
      var p3 := PlainStep(p2, DeleteOp(1)).0;
      var p4 := PlainStep(p3, UpdateFreeOp).0;
      1 in p2.records && 2 in PlainStep(p4, BeginOp).0.records && PlainStep(p4, BeginOp).0.records[2] == b
  {
    assert |map[1 := a]| == 1;
  }

  lemma EmptyShows(size: uint16, journal: Option<seq<DBJournalEntry>>)
    requires size > 0 && CalculatePagesNeeded(size) == 2
    ensures !Created(size, journal).header.journalPending && Open(Created(size, journal)).Some?
    ensures Shows(Reopened(Created(size, journal)), size, Picture([], map[], [], 0, 1, 0, 0))
    ensures Represents(Reopened(Created(size, journal)), Empty(size))
  {
    hide Anchored, Operable, Represents, Start, IsKey, Created;
    CreateRepresents(size, journal);
    var s := Reopened(Created(size, journal));
    RepresentedFacts(s, Empty(size));
    CoherentAnchored(s);
    EmptyIs(size, journal);
    forall x ensures Start(s, x) == None {
      SameKey(s, x);
      KeyIs(s, x);
    }
    ShowsFrom(s, size, Picture([], map[], [], 0, 1, 0, 0));
  }

  lemma EmptyIs(size: uint16, journal: Option<seq<DBJournalEntry>>)
    requires size > 0
    ensures !Created(size, journal).header.journalPending && Open(Created(size, journal)).Some?
    ensures var s := Reopened(Created(size, journal));
      && s.disk.pages == [] && s.mem.header.recordSize == size && s.mem.header.nextRecordId == 1
      && s.mem.header.recordCount == 0 && s.mem.free.len == 0 && s.mem.free.count == 0
      && s.disk.index == BTree.Ready(BTree.EmptyLeaf()) && BTree.EmptyLeaf().entries == []
      && Indexed(s.disk) && Dir(s.disk) == map[]
  {
    ApplyNone(Created(size, journal));
    NoEntries();
  }

  lemma FoundIn(s: State, p: Plain, id: int32)
    requires Represents(s, p) && id in p.records
    ensures FindRecord(s, id) == Some(p.records[id])
  {
    hide *;
    RepresentedFacts(s, p);
    RepresentedData(s, p);
    FindsRecords(s, id);
  }

  lemma StepIs(s: State, op: Op)
    requires Coherent(s) && Enabled(s, op)
    ensures match op
      case AddOp(data) => Operable(s) && Room(s) && Step(s, op).0 == After(s, Add(s, data))
      case DeleteOp(id) => Operable(s) && Step(s, op).0 == After(s, Delete(s, id))
      case UpdateFreeOp => |s.disk.pages| <= Allocator.MAX_PAGES && Step(s, op).0 == After(s, UpdateFree(s))
      case BeginOp => Step(s, op).0 == Begun(s)
      case _ => true
  {
    hide Operable, Room, Runs, Add, Delete, UpdateFree, Begin, ApplyAll, Update, Compact, Rebuild, Commit, Open;
  }

  function Drawn1(): Picture { Picture([Active(1), Rest], map[1 := 0], [], 0, 2, 14, 1) }
  function Drawn2(): Picture { Picture([Active(1), Rest, Active(2), Rest], map[1 := 0, 2 := 2], [], 0, 3, 28, 2) }
  function Drawn3(): Picture { Picture([Free, Free, Active(2), Rest], map[2 := 2], [2], 2, 3, 28, 1) }

  lemma DrawnIs()
    ensures var p0 := Picture([], map[], [], 0, 1, 0, 0);
      && WithRecord(p0, p0.marks + [Free, Free], |p0.marks|) == Drawn1()
      && WithRecord(Drawn1(), Drawn1().marks + [Free, Free], |Drawn1().marks|) == Drawn2()
      && Drawn2().(marks := Drawn2().marks[0 := Free][0 + 1 := Free], starts := Drawn2().starts - {1},
                   list := Drawn2().list + [0 + 2], count := Drawn2().count + 2, records := Drawn2().records - 1)
         == Drawn3()
      && Refreshed(Drawn3()) == BeforeCut(28)
      && Small(p0) && Small(Drawn1()) && Small(Drawn2()) && Small(Drawn3())
      && Drawn1().count == 0 && Drawn2().count == 0 && |Drawn2().list| < DB_MAX_FREE_PAGES && Drawn2().starts[1] == 0
  {
    FreeNumbers();
    assert map[1 := 0 as int, 2 := 2] - {1} == map[2 := 2];
  }

  lemma OpenedDraws(size: uint16, journal: Option<seq<DBJournalEntry>>, a: bytes, b: bytes) returns (s: State)
    requires size > 0 && CalculatePagesNeeded(size) == 2 && |a| == |b| == size
    ensures Opened(size, journal, a, b, s)
    ensures InTransaction(s) && Shows(s, size, BeforeCut(28)) && FindRecord(s, 2) == Some(b)
  {
    hide *;
    EmptyShows(size, journal);
    OpeningAllowed(size, a, b);
    DrawnIs();
    PlainOpening(size, a, b);
    var s0, p0, ops := Reopened(Created(size, journal)), Empty(size), Opening(a, b);
    OpeningIs(size, a, b);
    RunStep(s0, p0, ops);
    StepIs(s0, ops[0]);
    AddGrows(s0, size, Picture([], map[], [], 0, 1, 0, 0), a);
    var s1, p1, ops1 := Step(s0, ops[0]).0, PlainStep(p0, ops[0]).0, ops[1..];
    RunStep(s1, p1, ops1);
    StepIs(s1, ops1[0]);
    AddGrows(s1, size, Drawn1(), b);
    var s2, p2, ops2 := Step(s1, ops1[0]).0, PlainStep(p1, ops1[0]).0, ops1[1..];
    RunStep(s2, p2, ops2);
    StepIs(s2, ops2[0]);
    FoundIn(s2, p2, 1);
    DeleteDraws(s2, size, Drawn2(), 1);
    var s3, p3, ops3 := Step(s2, ops2[0]).0, PlainStep(p2, ops2[0]).0, ops2[1..];
    RunStep(s3, p3, ops3);
    StepIs(s3, ops3[0]);
    RefillDraws(s3, size, Drawn3());
    var s4, p4, ops4 := Step(s3, ops3[0]).0, PlainStep(p3, ops3[0]).0, ops3[1..];
    RunStep(s4, p4, ops4);
    StepIs(s4, ops4[0]);
    BeginDraws(s4, size, BeforeCut(28));
    RepresentedFacts(s4, p4);
    BeginStarts(s4);
    s := Step(s4, ops4[0]).0;
    var p5 := PlainStep(p4, ops4[0]).0;
    RunNothing(s, p5);
    FoundIn(s, p5, 2);
    OpenedIs(size, journal, a, b, s);
  }

  lemma OpeningIs(size: uint16, a: bytes, b: bytes)
    requires size > 0 && |a| == |b| == size && CalculatePagesNeeded(size) == 2
    ensures var ops := Opening(a, b);
      && |ops| == 5 && ops[0] == AddOp(a) && ops[1..][0] == AddOp(b) && ops[1..][1..][0] == DeleteOp(1)
      && ops[1..][1..][1..][0] == UpdateFreeOp && ops[1..][1..][1..][1..][0] == BeginOp
      && ops[1..][1..][1..][1..][1..] == []
  {
  }

  lemma OpenedIs(size: uint16, journal: Option<seq<DBJournalEntry>>, a: bytes, b: bytes, s: State)
    requires size > 0 && !Created(size, journal).header.journalPending && Open(Created(size, journal)).Some?
    requires Represents(Reopened(Created(size, journal)), Empty(size)) && AllAllowed(Empty(size), Opening(a, b))
    requires s == RunOps(Reopened(Created(size, journal)), Empty(size), Opening(a, b)).0
    ensures Opened(size, journal, a, b, s)
  {
    hide Represents, AllAllowed, RunOps, Opening, Created, Open, Reopened;
  }

  /** Record 4 in the pages behind the start of record 3. */
  function Covering(): Picture {
    Picture([Active(3), Active(4), Rest, Free, Active(3), Rest], map[3 := 0, 4 := 1], [], 1, 5, 56, 3)
  }

  function Later1(): Picture {
    Picture([Active(3), Free, Active(2), Rest, Active(3), Rest], map[3 := 0, 2 := 2], [3], 1, 4, 42, 3)
  }

  function Later2(): Picture {
    Picture([Active(3), Free, Free, Free, Active(3), Rest], map[3 := 0], [3, 4], 3, 4, 42, 2)
  }

  lemma LaterIs()
    ensures Small(AfterCut()) && AfterCut().count < 2 && AfterCut().next == 3 && 3 in AfterCut().starts
    ensures WithRecord(AfterCut(), AfterCut().marks + [Free, Free], |AfterCut().marks|) == Later1()
    ensures Small(Later1()) && |Later1().list| < DB_MAX_FREE_PAGES && Later1().count == 1 && Later1().starts[2] == 2
    ensures Later1().(marks := Later1().marks[2 := Free][2 + 1 := Free], starts := Later1().starts - {2},
                      list := Later1().list + [2 + 2], count := Later1().count + 2, records := Later1().records - 1)
         == Later2()
    ensures Small(Later2()) && Later2().count == 3 && Later2().list == [3, 4] && Later2().next == 4
      && 4 !in Later2().starts
    ensures WithRecord(Later2(), Later2().marks, 1).(list := [], count := 1) == Covering()
    ensures Covering().starts == map[3 := 0, 4 := 1]
  {
    assert map[3 := 0 as int, 2 := 2] - {2} == map[3 := 0];
  }

  /** From the recovered state on. */
  lemma GoesOnDraws(r: State, size: uint16, b: bytes, d: bytes, e: bytes) returns (t: State)
    requires Shows(r, size, AfterCut()) && FindRecord(r, 2) == Some(b) && FindRecord(r, 3) == None
    requires |d| == |e| == size
    ensures GoesOn(r, d, e, t) && Shows(t, size, Covering())
    ensures FindRecord(t, 4) == Some(e) && FindRecord(t, 3) == None
  {
    hide *;
    LaterIs();
    ShowsParts(r, size, AfterCut());
    AddGrows(r, size, AfterCut(), d);
    var r1 := After(r, Add(r, d));
    AddReads(r, d);
    StartsAsIs(r, AfterCut().starts, 3);
    KeyIs(r, 3);
    ShowsParts(r1, size, Later1());
    DeleteDraws(r1, size, Later1(), 2);
    DeleteReads(r1, 2);
    var r2 := After(r1, Delete(r1, 2));
    ShowsParts(r2, size, Later2());
    ListedRun([3, 4], 3);
    AddTakes(r2, size, Later2(), e, 3);
    t := After(r2, Add(r2, e));
    AddReads(r2, e);
    StartsAsIs(r2, Later2().starts, 4);
    KeyIs(r2, 4);
    GoesOnIs(r, d, e, t);
    FoundNowhere(r1, 2, 3);
  }

  lemma FoundNowhere(s: State, id: int32, x: int32)
    ensures FindRecord(s, x) == None ==> (if Covers(s, id, x) then None else FindRecord(s, x)) == None
  {
  }

  lemma GoesOnIs(r: State, d: bytes, e: bytes, t: State)
    requires Operable(r) && Room(r) && Operable(After(r, Add(r, d)))
    requires var r2 := After(After(r, Add(r, d)), Delete(After(r, Add(r, d)), 2));
      Operable(r2) && Room(r2) && t == After(r2, Add(r2, e))
    ensures GoesOn(r, d, e, t)
  {
    hide Operable, Room, Add, Delete, After;
  }

  lemma CoveringFacts(pages: Store)
    requires Marks(pages) == Covering().marks
    ensures |pages| == 6 && pages[0].status == PS_ACTIVE && pages[1].status == PS_ACTIVE && pages[1].id == 4
    ensures pages[0].id == 3 && Count(pages, PS_ACTIVE) <= MAX_RECORDS
  {
    hide Count;
    CountAtMost(pages, PS_ACTIVE);
    assert MarkOf(pages[0]) == Active(3) && MarkOf(pages[1]) == Active(4);
  }

  lemma FirstVisited(pages: Store, n: nat)
    requires n >= 1 && |pages| > 0 && pages[0].status == PS_ACTIVE
    ensures Visited(pages, n, 0, 0)
  {
  }

  lemma NoSpaceNeeded(pages: Store)
    requires Marks(pages) == Covering().marks
    ensures |CompactFrom(pages, 2, 0)| <= Allocator.MAX_PAGES
  {
    hide CompactFrom, Marks;
    forall s | 0 <= s < |pages| && pages[s].status == PS_ACTIVE ensures s + 2 <= |pages| {
      assert MarkOf(pages[s]) == Marks(pages)[s];
    }
    NotLonger(pages, 2, 0);
  }

  /** A run from creation on, with any records of two pages: two additions, a deletion, a refilled list, and a
      transaction whose addition is cut short after its first entry; then recovery, an addition under the same id 3, a
      deletion, and an addition under id 4, which gets the page that the unfinished record 3 was to have. All is well
      until then: record 4 is found, and record 3 is not. But updating record 3, deleting it or compacting the file each
      destroys record 4. */
  lemma CoveredRun(size: uint16, journal: Option<seq<DBJournalEntry>>, a: bytes, b: bytes, c: bytes, d: bytes, e: bytes,
                   x: bytes, now: int32)
    returns (s: State, t: State)
    requires size > 0 && CalculatePagesNeeded(size) == 2
    requires |a| == |b| == |c| == |d| == |e| == |x| == size
    ensures Opened(size, journal, a, b, s)
    ensures Operable(s) && Room(s) && |AddAllocation(s).writes| + 1 <= |Add(s, c).writes|
    ensures var f := Cut(s, c);
      Opens(f)
      && GoesOn(Reopened(f), d, e, t)
    ensures Anchored(t) && FindRecord(t, 3) == None && FindRecord(t, 4) == Some(e) && Covers(t, 3, 4)
    ensures Update(t, 3, x).ok && FindRecord(After(t, Update(t, 3, x)), 4) == None
    ensures Delete(t, 3).ok && FindRecord(After(t, Delete(t, 3)), 4) == None
    ensures |CompactFrom(t.disk.pages, PagesPer(t), 0)| <= Allocator.MAX_PAGES
    ensures FindRecord(After(t, Compact(t, now)), 4) == None
  {
    hide *;
    s := OpenedDraws(size, journal, a, b);
    CutDraws(s, size, 28, c);
    JournaledIn(s);
    NotLive(s, 28, size);
    OpensIs(Cut(s, c));
    t := GoesOnDraws(Reopened(Cut(s, c)), size, b, d, e);
    ShowsParts(t, size, Covering());
    LaterIs();
    StartsAsIs(t, Covering().starts, 3);
    StartsAsIs(t, Covering().starts, 4);
    KeyIs(t, 3);
    CoversIs(t, 3, 4);
    OverlapIs(1, 0, 2);
    UpdateReads(t, 3, x);
    DeleteReads(t, 3);
    CoveringFacts(t.disk.pages);
    FirstVisited(t.disk.pages, 2);
    NoSpaceNeeded(t.disk.pages);
    LowestStart(t.disk.pages, 4, 1);
    CompactLosesCovered(t, now, 0, 4);
  }

  lemma NotLive(s: State, load: nat, size: uint16)
    requires Shows(s, size, BeforeCut(load))
    ensures FindRecord(s, 3) == None
  {
    hide *;
    BeforeCutIs(load);
    ShowsParts(s, size, BeforeCut(load));
    StartsAsIs(s, BeforeCut(load).starts, 3);
    FindIs(s, 3);
  }
}
