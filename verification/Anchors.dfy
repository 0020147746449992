/** The record operations where the index may name runs that are not whole, or has the next id already: so after a crash
    between the journal entries of a record of several pages, or before an addition has written its header. */
module Anchors {
  import opened Words
  import opened DbTypes
  import opened Pages
  import opened Disk
  import opened Directories
  import opened Engine
  import opened Refinement
  import Allocator
  import BTree
  import Leaf

  // ---- The invariant ----

  /** The slot that the index gives for an id. */
  function Start(s: State, id: int32): (r: Option<int>) {
    match BTree.FirstValue(s.disk.index, id)
    case None => None
    case Some(first) => Some((first as int) - 2)
  }

  predicate IsKey(s: State, id: int32) {
    Start(s, id).Some?
  }

  /** Every key's run starts at an active page with its id; the pages behind may be anything. */
  predicate StartsAt(pages: Store, n: nat, slot: int, id: int32) {
    0 <= slot < |pages| && slot + n <= |pages| && pages[slot].status == PS_ACTIVE && pages[slot].id == id
  }

  predicate KeyStarts(s: State, id: int32) {
    match Start(s, id)
    case None => true
    case Some(slot) => StartsAt(s.disk.pages, PagesPer(s), slot, id)
  }

  predicate AllStart(s: State) {
    forall id :: KeyStarts(s, id)
  }

  predicate ProperIndex(f: BTree.IndexFile) {
    f.Ready? && Leaf.Proper(f.leaf.entries) && Leaf.Fits(f.leaf.entries) && |f.leaf.entries| <= Leaf.MAX_KEYS
  }

  predicate FreeExact(s: State) {
    && |s.disk.pages| <= Allocator.MAX_PAGES && s.disk.free == s.mem.free
    && Allocator.Sound(s.mem.free, s.disk.pages) && s.mem.free.count == Count(s.disk.pages, PS_EMPTY) % 0x1_0000
  }

  /** The free list is exact and every index key starts at an active page with its id. */
  predicate Anchored(s: State): (r: bool)
    ensures r ==> Operable(s)
  {
    && FreeExact(s) && ProperIndex(s.disk.index) && AllStart(s)
    && s.mem.header.recordSize > 0 && |s.disk.index.leaf.entries| <= s.mem.header.recordCount
    && (s.mem.journalOpen ==> s.disk.journal.Some?)
    && (AnchoredOperable(s); true)
  }

  lemma AnchoredOperable(s: State)
    requires FreeExact(s) && ProperIndex(s.disk.index) && AllStart(s)
    requires |s.disk.index.leaf.entries| <= s.mem.header.recordCount && (s.mem.journalOpen ==> s.disk.journal.Some?)
    ensures Operable(s)
  {
    hide Allocator.Sound, Allocator.ListsFile, BTree.FirstValue, Leaf.Proper, Leaf.Fits, Count;
    Allocator.SoundListsFile(s.mem.free, s.disk.pages);
    forall id | BTree.FirstValue(s.disk.index, id).Some?
      ensures 2 <= BTree.FirstValue(s.disk.index, id).value
      ensures BTree.FirstValue(s.disk.index, id).value - 2 + PagesPer(s) <= |s.disk.pages|
    {
      assert KeyStarts(s, id);
    }
  }

  lemma CoherentAnchored(s: State)
    requires Coherent(s)
    ensures Anchored(s) && Indexed(s.disk)
    ensures forall id :: IsKey(s, id) <==> id in Dir(s.disk)
    ensures forall id :: id in Dir(s.disk) ==> Start(s, id) == Some(Dir(s.disk)[id])
  {
    hide Allocator.Sound, DirectoryOf, BTree.FirstValue, Operable, Count, IsRun, Leaf.Proper;
    Leaf.SizeAtLeast(Entries(s.disk)) by {
      EntriesProper(s);
    }
    forall id
      ensures IsKey(s, id) <==> id in Dir(s.disk)
      ensures id in Dir(s.disk) ==> Start(s, id) == Some(Dir(s.disk)[id])
      ensures KeyStarts(s, id)
    {
      FirstIs(s.disk, id);
      if id in Dir(s.disk) {
        RunStart(s.disk.pages, Dir(s.disk)[id], id, PagesPer(s));
      }
    }
  }

  lemma EntriesProper(s: State)
    requires Coherent(s)
    ensures Leaf.Proper(Entries(s.disk)) && forall i :: 0 <= i < |Entries(s.disk)| ==> Entries(s.disk)[i].values != []
  {
    hide FreeAgrees, HeadersAgree, Runs, Operable;
  }

  lemma RunStart(pages: Store, slot: int, id: int32, n: nat)
    requires n >= 1 && IsRun(pages, slot, id, n)
    ensures StartsAt(pages, n, slot, id)
  {
  }

  lemma AnchoredParts(s: State)
    requires Anchored(s)
    ensures FreeExact(s) && ProperIndex(s.disk.index) && AllStart(s) && Operable(s)
    ensures s.mem.header.recordSize > 0 && PagesPer(s) == CalculatePagesNeeded(s.mem.header.recordSize)
    ensures |s.disk.index.leaf.entries| <= s.mem.header.recordCount && (s.mem.journalOpen ==> s.disk.journal.Some?)
    ensures |s.disk.pages| <= Allocator.MAX_PAGES && s.disk.index.Ready?
  {
    hide Allocator.Sound, Count, AllStart, Operable, Leaf.Proper, Leaf.Fits;
  }

  // ---- Reading by page ----

  /** What is read from the pages from `slot` on for an id. */
  function ReadAt(pages: Store, size: uint16, slot: int, id: int32): Option<bytes> {
    if IsRun(pages, slot, id, CalculatePagesNeeded(size)) then Some(Content(pages, slot, size)) else None
  }

  lemma FindIs(s: State, id: int32)
    ensures FindRecord(s, id) ==
      match Start(s, id) case None => None case Some(slot) => ReadAt(s.disk.pages, s.mem.header.recordSize, slot, id)
  {
    hide BTree.FirstValue, IsRun, Content;
  }

  /** Two stretches of `n` pages have a page in common. */
  predicate Overlap(a: int, b: int, n: nat) {
    a < b + n && b < a + n
  }

  lemma ReadElsewhere(pages: Store, pages': Store, size: uint16, slot: int, id: int32)
    requires 0 <= slot && slot + CalculatePagesNeeded(size) <= |pages| && |pages| <= |pages'|
    requires forall s :: slot <= s < slot + CalculatePagesNeeded(size) ==> pages'[s] == pages[s]
    ensures ReadAt(pages', size, slot, id) == ReadAt(pages, size, slot, id)
  {
    hide Content;
    if IsRun(pages, slot, id, CalculatePagesNeeded(size)) {
      RunElsewhere(pages, pages', slot, id, size);
    }
  }

  /** A page that cannot belong to the run makes reading fail. */
  lemma ReadFails(pages: Store, size: uint16, slot: int, id: int32, s: int)
    requires 0 <= slot <= s < slot + CalculatePagesNeeded(size) && s < |pages|
    requires pages[s].id != id || pages[s].status != StatusOf(s - slot)
    ensures ReadAt(pages, size, slot, id) == None
  {
  }

  lemma ReadWritten(pages: Store, size: uint16, slot: nat, id: int32, data: bytes)
    requires |data| == size > 0 && slot + CalculatePagesNeeded(size) <= |pages|
    ensures ReadAt(WithRun(pages, slot, id, data, CalculatePagesNeeded(size)), size, slot, id) == Some(data)
  {
    hide WithRun, IsRun, Content;
    WrittenRun(pages, slot, id, data, size);
  }

  /** A record written over empty pages changes nothing that was read from elsewhere, whole or not. */
  lemma ReadBesideNew(pages: Store, size: uint16, slot: nat, id: int32, data: bytes, at: int, x: int32)
    requires var n := CalculatePagesNeeded(size); AllEmpty(pages, slot, n) && StartsAt(pages, n, at, x)
    ensures slot + CalculatePagesNeeded(size) <= |pages|
    ensures var n := CalculatePagesNeeded(size);
      var pages' := WithRun(pages, slot, id, data, n);
      ReadAt(pages', size, at, x) == ReadAt(pages, size, at, x) && StartsAt(pages', n, at, x)
  {
    hide WithRun, ReadAt, Chunk;
    var n := CalculatePagesNeeded(size);
    var pages' := WithRun(pages, slot, id, data, n);
    if Overlap(at, slot, n) {
      assert at < slot;
      assert pages[slot].status == PS_EMPTY && pages'[slot] == Image(id, data, 0);
      ReadFails(pages, size, at, x, slot);
      ReadFails(pages', size, at, x, slot);
    } else {
      ReadElsewhere(pages, pages', size, at, x);
    }
  }

  /** A record written over other pages hides exactly the runs that it overlaps. */
  lemma ReadBesideUpdated(pages: Store, size: uint16, slot: nat, id: int32, data: bytes, at: int, x: int32)
    requires var n := CalculatePagesNeeded(size);
      slot + n <= |pages| && 0 <= at && at + n <= |pages| && x != id
    ensures var n := CalculatePagesNeeded(size);
      var pages' := WithRun(pages, slot, id, data, n);
      ReadAt(pages', size, at, x) == if Overlap(at, slot, n) then None else ReadAt(pages, size, at, x)
  {
    hide WithRun, ReadAt, Chunk;
    var n := CalculatePagesNeeded(size);
    var pages' := WithRun(pages, slot, id, data, n);
    if Overlap(at, slot, n) {
      var s := if at < slot then slot else at;
      assert pages'[s] == Image(id, data, s - slot);
      ReadFails(pages', size, at, x, s);
    } else {
      ReadElsewhere(pages, pages', size, at, x);
    }
  }

  lemma ReadBesideErased(pages: Store, size: uint16, slot: nat, at: int, x: int32)
    requires var n := CalculatePagesNeeded(size); slot + n <= |pages| && 0 <= at && at + n <= |pages|
    ensures var n := CalculatePagesNeeded(size);
      var pages' := WithoutRun(pages, slot, n);
      ReadAt(pages', size, at, x) == if Overlap(at, slot, n) then None else ReadAt(pages, size, at, x)
  {
    hide WithoutRun, ReadAt;
    var n := CalculatePagesNeeded(size);
    var pages' := WithoutRun(pages, slot, n);
    if Overlap(at, slot, n) {
      var s := if at < slot then slot else at;
      assert pages'[s] == EMPTY_PAGE;
      ReadFails(pages', size, at, x, s);
    } else {
      ReadElsewhere(pages, pages', size, at, x);
    }
  }

  // ---- The first value of a key ----

  lemma FirstOf(leaf: Leaf.Leaf, id: int32)
    requires Leaf.Proper(leaf.entries)
    ensures var m := Leaf.ToMap(leaf.entries);
      && (id in m ==> m[id] != [])
      && BTree.FirstValue(BTree.Ready(leaf), id) == if id in m then Some(m[id][0]) else None
  {
    hide Leaf.ToMap, Leaf.Found;
    Leaf.FoundIsLookup(leaf.entries, id);
    if id in Leaf.ToMap(leaf.entries) {
      var i := Leaf.MapKey(leaf.entries, id);
    }
  }

  /** An insertion gives a new key its first value and leaves that of every other key. */
  lemma FirstAfterInsert(leaf: Leaf.Leaf, key: int32, value: int32)
    requires ProperIndex(BTree.Ready(leaf)) && Leaf.Inserted(leaf.entries, key, value).Some?
    ensures var es, f := Leaf.Inserted(leaf.entries, key, value).value, BTree.Ready(leaf);
      && |es| <= Leaf.MAX_KEYS && |es| <= |leaf.entries| + 1 && ProperIndex(BTree.Ready(leaf.(entries := es)))
      && forall x :: BTree.FirstValue(BTree.Ready(leaf.(entries := es)), x)
                     == if x == key && BTree.FirstValue(f, x).None? then Some(value) else BTree.FirstValue(f, x)
  {
    hide Leaf.ToMap, Leaf.Inserted, Leaf.Proper, Leaf.Fits, BTree.FirstValue;
    Leaf.InsertRefines(leaf.entries, key, value);
    Leaf.InsertedGrowth(leaf.entries, key, value);
    var es := Leaf.Inserted(leaf.entries, key, value).value;
    forall x
      ensures BTree.FirstValue(BTree.Ready(leaf.(entries := es)), x)
           == if x == key && BTree.FirstValue(BTree.Ready(leaf), x).None? then Some(value)
              else BTree.FirstValue(BTree.Ready(leaf), x)
    {
      FirstOf(leaf, x);
      FirstOf(leaf.(entries := es), x);
    }
  }

  lemma FirstAfterDelete(leaf: Leaf.Leaf, key: int32)
    requires ProperIndex(BTree.Ready(leaf)) && BTree.FirstValue(BTree.Ready(leaf), key).Some?
    ensures Leaf.Deleted(leaf.entries, key).Some?
    ensures var es, f := Leaf.Deleted(leaf.entries, key).value, BTree.Ready(leaf);
      && |es| == |leaf.entries| - 1 && ProperIndex(BTree.Ready(leaf.(entries := es)))
      && forall x :: BTree.FirstValue(BTree.Ready(leaf.(entries := es)), x)
                     == if x == key then None else BTree.FirstValue(f, x)
  {
    hide Leaf.ToMap, Leaf.Deleted, Leaf.Proper, Leaf.Fits, BTree.FirstValue;
    Leaf.DeleteRefines(leaf.entries, key);
    FirstOf(leaf, key);
    var es := Leaf.Deleted(leaf.entries, key).value;
    forall x
      ensures BTree.FirstValue(BTree.Ready(leaf.(entries := es)), x)
           == if x == key then None else BTree.FirstValue(BTree.Ready(leaf), x)
    {
      FirstOf(leaf, x);
      FirstOf(leaf.(entries := es), x);
    }
  }

  // ---- AddRecord ----

  /** What the allocation of an addition gives. */
  lemma AnchoredGrant(s: State)
    requires Anchored(s) && Room(s)
    ensures var a, n := AddAllocation(s), PagesPer(s);
      && Allocator.Granted(s.disk.pages, n, a.first, a.free, a.grown)
      && 2 <= a.first && a.first - 2 + n <= |s.disk.pages| + a.grown <= Allocator.MAX_PAGES
      && AllEmpty(s.disk.pages + Empties(a.grown), a.first - 2, n)
    ensures AddAllocation(s) == Allocator.Allocate(s.mem.free, s.disk.pages, PagesPer(s))
  {
    hide Allocator.Sound, Allocator.Allocate, Count, AllStart, ProperIndex;
    GrantedRange(s);
    Allocator.AllocateSound(s.mem.free, s.disk.pages, PagesPer(s));
  }

  /** The disk after an addition, in terms of what was allocated. */
  lemma AnchoredAdd(s: State, data: bytes)
    requires Operable(s) && Room(s)
    ensures s.disk.index.Ready?
    ensures var a, n, id, o := AddAllocation(s), PagesPer(s), s.mem.header.nextRecordId, Add(s, data);
      var s' := After(s, o);
      var inserted := Leaf.Inserted(s.disk.index.leaf.entries, id, a.first);
      && 2 <= a.first && a.first - 2 + n <= |s.disk.pages| + a.grown
      && s'.disk.pages == WithRun(s.disk.pages + Empties(a.grown), a.first - 2, id, data, n)
      && (o.ok <==> inserted.Some?)
      && s'.disk.index == (if o.ok then BTree.Ready(s.disk.index.leaf.(entries := inserted.value)) else s.disk.index)
      && s'.disk.free == a.free == s'.mem.free && s'.mem.journalOpen == s.mem.journalOpen
      && (s.disk.journal.Some? ==> s'.disk.journal.Some?)
      && s'.mem.header.recordSize == s.mem.header.recordSize
      && s'.mem.header.recordCount == s.mem.header.recordCount + if o.ok then 1 else 0
  {
    hide ApplyAll, WithRun, RecordWrites, IndexWrites, WriteEntries, Leaf.Inserted, Allocator.Allocate, Spaced,
      Allocator.ListsFile;
    GrantedRange(s);
    AddEffect(s, data);
  }

  /** AddRecord where the index may name runs that are not whole or have the next id already: lookups of every other id
      go on as before. The new record is found exactly when its addition succeeds and its id was not a key before; a
      lookup of an id that was a key goes on giving what it gave. */
  lemma AddReads(s: State, data: bytes)
    requires Anchored(s) && Room(s) && |data| == s.mem.header.recordSize
    ensures var o, s', id := Add(s, data), After(s, Add(s, data)), s.mem.header.nextRecordId;
      && Anchored(s')
      && forall x :: FindRecord(s', x) == if o.ok && x == id && !IsKey(s, id) then Some(data) else FindRecord(s, x)
  {
    hide *;
    AnchoredParts(s);
    AnchoredGrant(s);
    AnchoredAdd(s, data);
    var o, s', id, n, a := Add(s, data), After(s, Add(s, data)), s.mem.header.nextRecordId, PagesPer(s),
      AddAllocation(s);
    SizeKept(s, s');
    StartAfterAdd(s, data);
    forall x
      ensures FindRecord(s', x) == if o.ok && x == id && !IsKey(s, id) then Some(data) else FindRecord(s, x)
      ensures KeyStarts(s', x)
    {
      ReadAfterAdd(s, data, x);
    }
    FreeAfterGrant(s.disk.pages, n, a.first, a.free, a.grown, id, data);
    IsAnchored(s');
  }

  lemma SizeKept(s: State, s': State)
    requires s'.mem.header.recordSize == s.mem.header.recordSize
    ensures PagesPer(s') == PagesPer(s)
  {
  }

  lemma IsAnchored(s: State)
    requires |s.disk.pages| <= Allocator.MAX_PAGES && s.disk.free == s.mem.free
    requires Allocator.Sound(s.mem.free, s.disk.pages) && s.mem.free.count == Count(s.disk.pages, PS_EMPTY) % 0x1_0000
    requires ProperIndex(s.disk.index) && s.mem.header.recordSize > 0
    requires |s.disk.index.leaf.entries| <= s.mem.header.recordCount && (s.mem.journalOpen ==> s.disk.journal.Some?)
    requires forall id :: KeyStarts(s, id)
    ensures Anchored(s)
  {
    hide Operable, Allocator.Sound, Count, KeyStarts;
  }

  lemma StartAfterAdd(s: State, data: bytes)
    requires Operable(s) && ProperIndex(s.disk.index) && Room(s)
    ensures var o, s', id := Add(s, data), After(s, Add(s, data)), s.mem.header.nextRecordId;
      && ProperIndex(s'.disk.index) && |s'.disk.index.leaf.entries| <= s'.mem.header.recordCount
      && forall x :: Start(s', x) ==
           if o.ok && x == id && !IsKey(s, id) then Some(AddAllocation(s).first - 2) else Start(s, x)
  {
    hide ProperIndex, BTree.FirstValue, Leaf.Inserted, Operable, AddAllocation, Add, After;
    EntriesCounted(s);
    AnchoredAdd(s, data);
    if Add(s, data).ok {
      FirstAfterInsert(s.disk.index.leaf, s.mem.header.nextRecordId, AddAllocation(s).first);
    }
  }

  lemma EntriesCounted(s: State)
    requires Operable(s)
    ensures s.disk.index.Ready? && |s.disk.index.leaf.entries| <= s.mem.header.recordCount
  {
  }

  lemma ReadAfterAdd(s: State, data: bytes, x: int32)
    requires Anchored(s) && Room(s) && |data| == s.mem.header.recordSize
    ensures var o, s', id := Add(s, data), After(s, Add(s, data)), s.mem.header.nextRecordId;
      && FindRecord(s', x) == (if o.ok && x == id && !IsKey(s, id) then Some(data) else FindRecord(s, x))
      && KeyStarts(s', x)
  {
    hide *;
    AnchoredParts(s);
    AnchoredGrant(s);
    AnchoredAdd(s, data);
    StartAfterAdd(s, data);
    var s', id, n, a, size := After(s, Add(s, data)), s.mem.header.nextRecordId, PagesPer(s), AddAllocation(s),
      s.mem.header.recordSize;
    var base := s.disk.pages + Empties(a.grown);
    FindIs(s, x);
    FindIs(s', x);
    SizeKept(s, s');
    KeyStartsIs(s', x);
    KeyIs(s, x);
    KeyIs(s', x);
    if Add(s, data).ok && x == id && !IsKey(s, id) {
      ReadWritten(base, size, a.first - 2, id, data);
      WrittenStarts(base, a.first - 2, id, data, n);
    } else if IsKey(s, x) {
      StartOf(s, x);
      StartGrown(s.disk.pages, a.grown, n, Start(s, x).value, x);
      ReadElsewhere(s.disk.pages, base, size, Start(s, x).value, x);
      ReadBesideNew(base, size, a.first - 2, id, data, Start(s, x).value, x);
    }
  }

  lemma KeyIs(s: State, x: int32)
    ensures IsKey(s, x) <==> Start(s, x).Some?
  {
  }

  lemma KeyStartsIs(s: State, x: int32)
    ensures Start(s, x).None? ==> KeyStarts(s, x)
    ensures Start(s, x).Some? && StartsAt(s.disk.pages, PagesPer(s), Start(s, x).value, x) ==> KeyStarts(s, x)
  {
  }

  lemma StartOf(s: State, x: int32)
    requires Anchored(s) && IsKey(s, x)
    ensures Start(s, x).Some? && StartsAt(s.disk.pages, PagesPer(s), Start(s, x).value, x)
    ensures 0 <= Start(s, x).value && Start(s, x).value + PagesPer(s) <= |s.disk.pages|
  {
    hide ProperIndex, FreeExact, Operable;
    assert KeyStarts(s, x);
  }

  lemma StartGrown(pages: Store, grown: nat, n: nat, slot: int, id: int32)
    requires StartsAt(pages, n, slot, id)
    ensures StartsAt(pages + Empties(grown), n, slot, id) && 0 <= slot
      && slot + n <= |pages| <= |pages + Empties(grown)|
    ensures forall s :: slot <= s < slot + n ==> (pages + Empties(grown))[s] == pages[s]
  {
  }

  lemma WrittenStarts(pages: Store, slot: nat, id: int32, data: bytes, n: nat)
    requires n >= 1 && slot + n <= |pages|
    ensures StartsAt(WithRun(pages, slot, id, data, n), n, slot, id)
  {
    hide WithRun;
  }

  /** With one page for each key an addition succeeds exactly while fewer than thirty-six ids are indexed, whether or
      not the next id is one of them. */
  lemma AddSucceedsWhile(s: State, data: bytes)
    requires Anchored(s) && Room(s) && Indexed(s.disk)
    ensures Add(s, data).ok <==> |Entries(s.disk)| < MAX_RECORDS
  {
    hide *;
    AnchoredParts(s);
    AnchoredGrant(s);
    AnchoredAdd(s, data);
    EntriesOf(s);
    var es, id, a := Entries(s.disk), s.mem.header.nextRecordId, AddAllocation(s);
    if IsKey(s, id) {
      StartOf(s, id);
      StartNotEmpty(s.disk.pages, a.grown, PagesPer(s), a.first - 2, Start(s, id).value, id);
      SameKey(s, id);
      InsertAgain(es, id, a.first);
    } else {
      SameKey(s, id);
      Enter(es, id, a.first);
    }
  }

  lemma EntriesOf(s: State)
    requires Anchored(s) && Indexed(s.disk)
    ensures Singles(Entries(s.disk)) && Entries(s.disk) == s.disk.index.leaf.entries
      && Dir(s.disk) == DirectoryOf(Entries(s.disk))
    ensures |Entries(s.disk)| <= Leaf.MAX_KEYS
  {
  }

  lemma SameKey(s: State, id: int32)
    requires Indexed(s.disk)
    ensures IsKey(s, id) <==> id in Dir(s.disk)
    ensures IsKey(s, id) ==> Start(s, id) == Some(Dir(s.disk)[id])
  {
    hide BTree.FirstValue, DirectoryOf, Singles;
    FirstIs(s.disk, id);
  }

  lemma StartNotEmpty(pages: Store, grown: nat, n: nat, slot: int, at: int, id: int32)
    requires n >= 1 && AllEmpty(pages + Empties(grown), slot, n) && StartsAt(pages, n, at, id)
    ensures slot != at
  {
    assert (pages + Empties(grown))[at] == pages[at];
  }

  /** A second page can be entered for an id exactly while fewer than thirty-six ids are there. */
  lemma InsertAgain(es: seq<Leaf.Entry>, id: int32, page: int32)
    requires Singles(es) && id in DirectoryOf(es) && page != DirectoryOf(es)[id] + 2 && |es| <= Leaf.MAX_KEYS
    ensures Leaf.Inserted(es, id, page).Some? <==> |es| < MAX_RECORDS
  {
    hide Leaf.ToMap, Leaf.Inserted, Leaf.EntriesSize;
    SinglesSize(es);
    SingleValues(es, id);
    Leaf.InsertSucceeds(es, id, page);
    assert Leaf.ToMap(es)[id] == [DirectoryOf(es)[id] + 2];
  }

  /** Whether the next addition can be found, when the index has room: for a given record exactly when the next id is
      not a key of the index, or the same record is found under it already; for every record exactly when the next id
      is not a key, which can be seen before the call. */
  lemma NewRecordFound(s: State, data: bytes)
    requires Anchored(s) && Room(s) && Indexed(s.disk) && |Entries(s.disk)| < MAX_RECORDS
    requires |data| == s.mem.header.recordSize
    ensures var id := s.mem.header.nextRecordId;
      && Add(s, data).ok
      && (FindRecord(After(s, Add(s, data)), id) == Some(data) <==> !IsKey(s, id) || FindRecord(s, id) == Some(data))
      && ((forall d: bytes :: |d| == s.mem.header.recordSize ==> FindRecord(After(s, Add(s, d)), id) == Some(d))
          <==> !IsKey(s, id))
  {
    hide *;
    AnchoredParts(s);
    var id, size := s.mem.header.nextRecordId, s.mem.header.recordSize;
    AddSucceedsWhile(s, data);
    AddReads(s, data);
    if IsKey(s, id) {
      var zeros, ones: bytes := Zeros(size), seq(size, _ => 1);
      AddReads(s, zeros);
      AddReads(s, ones);
      ZerosAre(size);
      assert zeros[0] != ones[0];
    } else {
      forall d: bytes | |d| == size ensures FindRecord(After(s, Add(s, d)), id) == Some(d) {
        AddSucceedsWhile(s, d);
        AddReads(s, d);
      }
    }
  }

  lemma ZerosAre(n: nat)
    ensures |Zeros(n)| == n && forall i :: 0 <= i < n ==> Zeros(n)[i] == 0
  {
  }

  // ---- UpdateRecord ----

  /** Both ids are keys, and their stretches of pages have a page in common. */
  predicate Covers(s: State, id: int32, x: int32) {
    Start(s, id).Some? && Start(s, x).Some? && Overlap(Start(s, x).value, Start(s, id).value, PagesPer(s))
  }

  lemma CoversIs(s: State, id: int32, x: int32)
    ensures Covers(s, id, x) <==>
      Start(s, id).Some? && Start(s, x).Some? && Overlap(Start(s, x).value, Start(s, id).value, PagesPer(s))
  {
    hide Start;
  }

  /** UpdateRecord succeeds exactly on keys. The record is then found, whether or not its run was whole before; of the
      others exactly those are lost whose runs have a page in common with its stretch of pages, as there can be behind a
      start whose run is not whole. */
  lemma UpdateReads(s: State, id: int32, data: bytes)
    requires Anchored(s) && |data| == s.mem.header.recordSize
    ensures var o, s' := Update(s, id, data), After(s, Update(s, id, data));
      && (o.ok <==> IsKey(s, id))
      && forall x :: FindRecord(s', x) ==
           if o.ok && x == id then Some(data)
           else if Covers(s, id, x) then None
           else FindRecord(s, x)
  {
    hide *;
    AnchoredParts(s);
    AnchoredUpdate(s, id, data);
    var s', n, size := After(s, Update(s, id, data)), PagesPer(s), s.mem.header.recordSize;
    forall x
      ensures FindRecord(s', x) ==
        if IsKey(s, id) && x == id then Some(data)
        else if Covers(s, id, x) then None
        else FindRecord(s, x)
    {
      FindIs(s, x);
      FindIs(s', x);
      KeyIs(s, x);
      KeyIs(s, id);
      CoversIs(s, id, x);
      SameStart(s, s', x);
      if IsKey(s, id) {
        StartOf(s, id);
        ReadWritten(s.disk.pages, size, Start(s, id).value, id, data);
        if IsKey(s, x) && x != id {
          StartOf(s, x);
          ReadBesideUpdated(s.disk.pages, size, Start(s, id).value, id, data, Start(s, x).value, x);
        }
      }
    }
  }

  lemma SameStart(s: State, s': State, x: int32)
    requires s'.disk.index == s.disk.index
    ensures Start(s', x) == Start(s, x)
  {
  }

  /** The state after an update. */
  lemma AnchoredUpdate(s: State, id: int32, data: bytes)
    requires Anchored(s)
    ensures var o, s' := Update(s, id, data), After(s, Update(s, id, data));
      && (o.ok <==> IsKey(s, id)) && (!o.ok ==> s' == s) && s'.mem == s.mem && s'.disk.index == s.disk.index
      && s'.disk.free == s.disk.free && (s.disk.journal.Some? ==> s'.disk.journal.Some?)
      && (o.ok ==>
            && 0 <= Start(s, id).value && Start(s, id).value + PagesPer(s) <= |s.disk.pages|
            && s'.disk.pages == WithRun(s.disk.pages, Start(s, id).value, id, data, PagesPer(s)))
  {
    hide ApplyAll, WithRun, RecordWrites, WriteEntries, Allocator.Sound, ProperIndex, AllStart, Spaced,
      Allocator.ListsFile, BTree.FirstValue;
    AnchoredParts(s);
    if IsKey(s, id) {
      UpdateEffectAt(s, id, data);
    } else {
      ApplyNone(s.disk);
    }
  }

  // ---- When an update or a deletion keeps the database anchored ----

  /** How many pages of the stretch are empty. */
  function EmptyWithin(pages: Store, slot: int, n: nat): nat {
    if 0 <= slot && slot + n <= |pages| then Count(pages[slot..slot + n], PS_EMPTY) else 0
  }

  predicate StartsWithin(s: State, id: int32, x: int32) {
    Start(s, id).Some? && Start(s, x).Some?
    && Start(s, id).value <= Start(s, x).value < Start(s, id).value + PagesPer(s)
  }

  /** The stretch of a key has no empty page, and no other key starts in it. */
  predicate Undivided(s: State, id: int32) {
    Start(s, id).Some? ==>
      EmptyWithin(s.disk.pages, Start(s, id).value, PagesPer(s)) == 0 && forall x :: x != id ==> !StartsWithin(s, id, x)
  }

  lemma StartsWithinIs(s: State, id: int32, x: int32)
    ensures StartsWithin(s, id, x) <==>
      Start(s, id).Some? && Start(s, x).Some?
      && Start(s, id).value <= Start(s, x).value < Start(s, id).value + PagesPer(s)
  {
    hide Start;
  }

  lemma UndividedIs(s: State, id: int32)
    ensures Undivided(s, id) <==>
      (Start(s, id).Some? ==>
         && EmptyWithin(s.disk.pages, Start(s, id).value, PagesPer(s)) == 0
         && forall x :: x != id ==> !StartsWithin(s, id, x))
  {
    hide Start, EmptyWithin, StartsWithin;
  }

  lemma {:induction false} CountNone(pages: Store, status: byte)
    ensures Count(pages, status) <= |pages|
    ensures Count(pages, status) == 0 <==> forall p :: 0 <= p < |pages| ==> pages[p].status != status
  {
    if pages != [] {
      var init, last := pages[..|pages| - 1], pages[|pages| - 1];
      CountNone(init, status);
      assert forall p :: 0 <= p < |init| ==> init[p] == pages[p];
    }
  }

  lemma EmptyWithinIs(pages: Store, slot: nat, n: nat)
    requires slot + n <= |pages|
    ensures EmptyWithin(pages, slot, n) <= n
    ensures EmptyWithin(pages, slot, n) == 0 <==> forall p :: slot <= p < slot + n ==> pages[p].status != PS_EMPTY
  {
    hide Count;
    var m := pages[slot..slot + n];
    CountNone(m, PS_EMPTY);
    if EmptyWithin(pages, slot, n) == 0 {
      forall p | slot <= p < slot + n ensures pages[p].status != PS_EMPTY {
        assert m[p - slot] == pages[p];
      }
    } else {
      var k :| 0 <= k < |m| && m[k].status == PS_EMPTY;
      assert pages[slot + k] == m[k];
    }
  }

  /** A count that is off by less than 2^16 is wrong. */
  lemma CountOff(c: nat, e: nat)
    requires e < 0x1_0000
    ensures (c + e) % 0x1_0000 == c % 0x1_0000 <==> e == 0
  {
  }

  /** The empty pages after a record was written over a stretch, and the list. */
  lemma FreeAfterUpdate(pages: Store, slot: nat, id: int32, data: bytes, n: uint16, f: DBFreeList)
    requires n >= 1 && slot + n <= |pages| && Allocator.Sound(f, pages)
    ensures var pages' := WithRun(pages, slot, id, data, n);
      && Count(pages, PS_EMPTY) == Count(pages', PS_EMPTY) + EmptyWithin(pages, slot, n)
      && (EmptyWithin(pages, slot, n) == 0 ==> Allocator.Sound(f, pages'))
  {
    hide WithRun, Overwrite, Count, EmptyWithin, Leaf.Distinct, Images;
    EmptyWithinIs(pages, slot, n);
    CountSplice(pages, slot, Images(id, data, n), PS_EMPTY);
    CountImages(id, data, n);
    SpliceIs(pages, slot, id, data, n);
    if EmptyWithin(pages, slot, n) == 0 {
      forall p | p in Allocator.Listed(f) ensures Allocator.EmptyPage(WithRun(pages, slot, id, data, n), p) {
        assert Allocator.EmptyPage(pages, p);
      }
    }
  }

  lemma SpliceIs(pages: Store, slot: nat, id: int32, data: bytes, n: nat)
    requires slot + n <= |pages|
    ensures WithRun(pages, slot, id, data, n) == Overwrite(pages, slot, Images(id, data, n))
    ensures WithoutRun(pages, slot, n) == Overwrite(pages, slot, Empties(n))
    ensures EmptyWithin(pages, slot, n) == Count(pages[slot..slot + n], PS_EMPTY)
  {
    hide Overwrite, Images, Count;
  }

  /** A key goes on starting at its page unless the page lies in the stretch of another key that is written or
      emptied. */
  lemma StartAfterUpdate(s: State, id: int32, data: bytes, x: int32)
    requires Anchored(s) && IsKey(s, id)
    ensures KeyStarts(After(s, Update(s, id, data)), x) <==> x == id || !StartsWithin(s, id, x)
  {
    hide *;
    AnchoredParts(s);
    AnchoredUpdate(s, id, data);
    var s', n := After(s, Update(s, id, data)), PagesPer(s);
    SameStart(s, s', x);
    SizeKept(s, s');
    KeyIs(s, x);
    KeyIs(s, id);
    KeyStartsIs(s', x);
    StartOf(s, id);
    StartsWithinIs(s, id, x);
    if IsKey(s, x) {
      StartOf(s, x);
      StartBeside(s.disk.pages, Start(s, id).value, id, data, n, Start(s, x).value, x);
      KeyStartsMeans(s', x);
    }
  }

  lemma KeyStartsMeans(s: State, x: int32)
    requires Start(s, x).Some?
    ensures KeyStarts(s, x) <==> StartsAt(s.disk.pages, PagesPer(s), Start(s, x).value, x)
  {
  }

  lemma StartBeside(pages: Store, slot: nat, id: int32, data: bytes, n: nat, at: int, x: int32)
    requires n >= 1 && slot + n <= |pages| && StartsAt(pages, n, slot, id) && StartsAt(pages, n, at, x)
    ensures StartsAt(WithRun(pages, slot, id, data, n), n, at, x)
      <==> (x == id && at == slot) || !(slot <= at < slot + n)
    ensures StartsAt(WithoutRun(pages, slot, n), n, at, x) <==> !(slot <= at < slot + n)
  {
    hide WithRun, WithoutRun;
    if slot <= at < slot + n {
      assert WithRun(pages, slot, id, data, n)[at] == Image(id, data, at - slot);
      assert WithoutRun(pages, slot, n)[at] == EMPTY_PAGE;
    }
  }

  /** An update keeps the free list exact and every key at its start exactly when the stretch of its record is
      undivided. Otherwise the free count includes pages of the stretch that are now in use, or a key starts nowhere. */
  lemma UpdateAnchored(s: State, id: int32, data: bytes)
    requires Anchored(s) && |data| == s.mem.header.recordSize
    ensures var s' := After(s, Update(s, id, data));
      && (Anchored(s') <==> Undivided(s, id))
      && (IsKey(s, id) ==>
            && Start(s, id).Some?
            && s'.mem.free.count
               == (Count(s'.disk.pages, PS_EMPTY) + EmptyWithin(s.disk.pages, Start(s, id).value, PagesPer(s)))
                  % 0x1_0000)
  {
    hide *;
    AnchoredParts(s);
    AnchoredUpdate(s, id, data);
    KeyIs(s, id);
    UndividedIs(s, id);
    var s', n := After(s, Update(s, id, data)), PagesPer(s);
    if IsKey(s, id) {
      var slot := Start(s, id).value;
      StartOf(s, id);
      FreeParts(s);
      FreeAfterUpdate(s.disk.pages, slot, id, data, n, s.mem.free);
      EmptyWithinIs(s.disk.pages, slot, n);
      CountOff(Count(s'.disk.pages, PS_EMPTY), EmptyWithin(s.disk.pages, slot, n));
      forall x ensures KeyStarts(s', x) <==> x == id || !StartsWithin(s, id, x) {
        StartAfterUpdate(s, id, data, x);
      }
      if Undivided(s, id) {
        IsAnchored(s');
      }
      if Anchored(s') {
        AnchoredParts(s');
        FreeParts(s');
        AllStartIs(s');
      }
    }
  }

  lemma AllStartIs(s: State)
    requires AllStart(s)
    ensures forall id :: KeyStarts(s, id)
  {
    hide KeyStarts;
  }

  /** A record that can be read has an undivided stretch. */
  lemma WholeUndivided(s: State, id: int32)
    requires Anchored(s) && FindRecord(s, id).Some?
    ensures Undivided(s, id)
  {
    hide *;
    AnchoredParts(s);
    WholeRun(s, id);
    UndividedIs(s, id);
    var n, slot := PagesPer(s), Start(s, id).value;
    EmptyWithinIs(s.disk.pages, slot, n);
    RunPages(s.disk.pages, slot, id, n);
    forall x | x != id ensures !StartsWithin(s, id, x) {
      StartsWithinIs(s, id, x);
      KeyIs(s, x);
      if IsKey(s, x) {
        StartOf(s, x);
        StartPage(s.disk.pages, n, Start(s, x).value, x);
      }
    }
  }

  lemma RunPages(pages: Store, slot: nat, id: int32, n: nat)
    requires IsRun(pages, slot, id, n)
    ensures slot + n <= |pages|
    ensures forall p :: slot <= p < slot + n ==> pages[p].status != PS_EMPTY && pages[p].id == id
  {
  }

  lemma StartPage(pages: Store, n: nat, slot: int, id: int32)
    requires StartsAt(pages, n, slot, id)
    ensures 0 <= slot < |pages| && pages[slot].status == PS_ACTIVE && pages[slot].id == id
  {
  }

  lemma FreeParts(s: State)
    requires FreeExact(s)
    ensures |s.disk.pages| <= Allocator.MAX_PAGES && s.disk.free == s.mem.free
    ensures Allocator.Sound(s.mem.free, s.disk.pages) && s.mem.free.count == Count(s.disk.pages, PS_EMPTY) % 0x1_0000
  {
  }

  lemma WholeRun(s: State, id: int32)
    requires Anchored(s) && FindRecord(s, id).Some?
    ensures IsKey(s, id) && Start(s, id).Some? && 0 <= Start(s, id).value
      && Start(s, id).value + PagesPer(s) <= |s.disk.pages|
    ensures IsRun(s.disk.pages, Start(s, id).value, id, PagesPer(s))
  {
    hide Operable, BTree.FirstValue, ProperIndex, AllStart, FreeExact;
  }

  // ---- An addition after the update of an unfinished record ----

  /** An allocation comes into a stretch of pages in use only by way of the list, and not at its start. */
  lemma AllocatedWithin(f: DBFreeList, pages: Store, n: uint16, slot: nat)
    requires Allocator.Bounded(f) && n >= 1 && |pages| + n <= Allocator.MAX_PAGES && slot + n <= |pages|
    requires slot + 2 !in Allocator.Listed(f) && EmptyWithin(pages, slot, n) == 0
    ensures var a, t := Allocator.Allocate(f, pages, n), Allocator.Take(f, n);
      && a.first - 2 != slot
      && (Overlap(a.first - 2, slot, n) <==> t.Some? && slot + 2 < t.value.0 < slot + 2 + n)
  {
    hide Allocator.Refilled, Allocator.Sound, Allocator.Take, Allocator.Append, Allocator.Listed, EmptyWithin;
    EmptyWithinIs(pages, slot, n);
    if Allocator.Take(f, n).Some? {
      TakenListed(f, n, slot + 2);
    } else if f.count >= n && f.len == 0 {
      var g := Allocator.Refilled(pages);
      Allocator.RefilledSound(pages);
      if Allocator.Take(g, n).Some? {
        Allocator.TakeSound(g, pages, n);
        EmptyOverlap(pages, Allocator.Take(g, n).value.0 - 2, slot, n);
      }
    }
  }

  lemma EmptyOverlap(pages: Store, a: nat, b: nat, n: nat)
    requires n >= 1 && AllEmpty(pages, a, n) && b + n <= |pages|
    ensures Overlap(a, b, n) ==> exists q :: b <= q < b + n && pages[q].status == PS_EMPTY
  {
    if Overlap(a, b, n) {
      var q := if a < b then b else a;
      assert b <= q < b + n && pages[q].status == PS_EMPTY;
    }
  }

  lemma TakenListed(f: DBFreeList, n: uint16, q: int)
    requires Allocator.Bounded(f) && n >= 1 && Allocator.Take(f, n).Some? && q !in Allocator.Listed(f)
    ensures var p := Allocator.Take(f, n).value.0; !(p <= q < p + n)
  {
    if n == 1 {
      assert Allocator.Listed(f)[f.len - 1] == f.slots[f.len - 1];
    }
  }

  lemma UpdatedOperable(s: State, id: int32, data: bytes)
    requires Anchored(s)
    ensures var s1 := After(s, Update(s, id, data));
      && Operable(s1) && ProperIndex(s1.disk.index) && (Room(s) ==> Room(s1)) && s1.mem == s.mem
      && |s1.disk.pages| == |s.disk.pages|
  {
    hide ApplyAll, WithRun, Update, Allocator.Sound, Allocator.ListsFile, BTree.FirstValue, AllStart, Leaf.Proper,
      Leaf.Fits, Start, IsKey, FreeExact;
    AnchoredParts(s);
    AnchoredUpdate(s, id, data);
  }

  lemma NotListed(s: State, id: int32)
    requires Anchored(s) && IsKey(s, id)
    ensures Start(s, id).Some? && Allocator.Bounded(s.mem.free)
    ensures Start(s, id).value + 2 !in Allocator.Listed(s.mem.free)
  {
    hide Operable, ProperIndex, AllStart, Start, Count, Leaf.Distinct;
    StartOf(s, id);
    var p := Start(s, id).value + 2;
    assert p in Allocator.Listed(s.mem.free) ==> Allocator.EmptyPage(s.disk.pages, p);
  }

  /** A record written over part of a run makes reading the run fail, whatever its id, unless both start at one page. */
  lemma ReadOverwritten(pages: Store, size: uint16, slot: nat, id: int32, data: bytes, at: int, x: int32)
    requires var n := CalculatePagesNeeded(size); slot + n <= |pages| && 0 <= at && at + n <= |pages| && at != slot
    requires Overlap(slot, at, CalculatePagesNeeded(size))
    ensures ReadAt(WithRun(pages, slot, id, data, CalculatePagesNeeded(size)), size, at, x) == None
  {
    hide WithRun, ReadAt, Chunk;
    var n := CalculatePagesNeeded(size);
    var pages' := WithRun(pages, slot, id, data, n);
    var s := if at < slot then slot else at;
    assert pages'[s] == Image(id, data, s - slot);
    ReadFails(pages', size, at, x, s);
  }

  /** UpdateRecord writes pages of an unfinished record that the free list still names. When the run that the list
      gives next lies in its stretch, the next addition erases the record that was just updated; otherwise the record
      stays. */
  lemma AdditionErases(s: State, id: int32, data: bytes, more: bytes)
    requires Anchored(s) && Room(s) && IsKey(s, id)
    requires |data| == |more| == s.mem.header.recordSize
    ensures Start(s, id).Some? && Allocator.Bounded(s.mem.free)
    ensures var s1, n, slot := After(s, Update(s, id, data)), PagesPer(s), Start(s, id).value;
      var taken := Allocator.Take(s.mem.free, n);
      && Operable(s1) && Room(s1) && FindRecord(s1, id) == Some(data)
      && FindRecord(After(s1, Add(s1, more)), id)
         == if taken.Some? && slot + 2 < taken.value.0 < slot + 2 + n then None else Some(data)
  {
    hide *;
    AnchoredParts(s);
    NotListed(s, id);
    StartOf(s, id);
    UpdateReads(s, id, data);
    AnchoredUpdate(s, id, data);
    UpdatedOperable(s, id, data);
    var s1, n, slot, size := After(s, Update(s, id, data)), PagesPer(s), Start(s, id).value, s.mem.header.recordSize;
    SameStart(s, s1, id);
    SizeKept(s, s1);
    GrantedRange(s1);
    AnchoredAdd(s1, more);
    StartAfterAdd(s1, more);
    KeyIs(s1, id);
    var s2, a := After(s1, Add(s1, more)), AddAllocation(s1);
    AllocationIs(s1);
    RoomIs(s1);
    WrittenWithin(s.disk.pages, slot, id, data, n);
    AllocatedWithin(s.mem.free, s1.disk.pages, n, slot);
    FindIs(s1, id);
    FindIs(s2, id);
    SizeKept(s1, s2);
    var base := s1.disk.pages + Empties(a.grown);
    BaseElsewhere(s1.disk.pages, a.grown, size, slot, id);
    OverlapIs(a.first - 2, slot, n);
    if Overlap(a.first - 2, slot, n) {
      ReadOverwritten(base, size, a.first - 2, s1.mem.header.nextRecordId, more, slot, id);
    } else {
      WrittenElsewhere(base, a.first - 2, s1.mem.header.nextRecordId, more, n);
      ReadElsewhere(base, s2.disk.pages, size, slot, id);
    }
  }

  lemma OverlapIs(a: int, b: int, n: nat)
    ensures Overlap(a, b, n) <==> a < b + n && b < a + n
  {
  }

  lemma AllocationIs(s: State)
    requires Operable(s) && Room(s)
    ensures Allocator.Bounded(s.mem.free) && |s.disk.pages| + PagesPer(s) <= Allocator.MAX_PAGES
    ensures AddAllocation(s) == Allocator.Allocate(s.mem.free, s.disk.pages, PagesPer(s))
  {
    hide Allocator.Allocate, Spaced;
  }

  lemma RoomIs(s: State)
    requires Room(s)
    ensures |s.disk.pages| + PagesPer(s) <= Allocator.MAX_PAGES
  {
  }

  lemma WrittenWithin(pages: Store, slot: nat, id: int32, data: bytes, n: nat)
    requires n >= 1 && slot + n <= |pages|
    ensures EmptyWithin(WithRun(pages, slot, id, data, n), slot, n) == 0
  {
    hide WithRun, EmptyWithin, Chunk;
    EmptyWithinIs(WithRun(pages, slot, id, data, n), slot, n);
  }

  lemma WrittenElsewhere(pages: Store, slot: nat, id: int32, data: bytes, n: nat)
    requires slot + n <= |pages|
    ensures |WithRun(pages, slot, id, data, n)| == |pages|
    ensures forall s :: 0 <= s < |pages| && !(slot <= s < slot + n) ==> WithRun(pages, slot, id, data, n)[s] == pages[s]
  {
    hide WithRun;
  }

  lemma BaseElsewhere(pages: Store, grown: nat, size: uint16, slot: int, id: int32)
    requires 0 <= slot && slot + CalculatePagesNeeded(size) <= |pages|
    ensures |pages + Empties(grown)| == |pages| + grown
    ensures ReadAt(pages + Empties(grown), size, slot, id) == ReadAt(pages, size, slot, id)
  {
    hide ReadAt;
    ReadElsewhere(pages, pages + Empties(grown), size, slot, id);
  }

  // ---- DeleteRecord ----

  /** DeleteRecord succeeds exactly on keys. The id is then no key; of the other records exactly those are lost whose
      runs have a page in common with its stretch of pages. */
  lemma DeleteReads(s: State, id: int32)
    requires Anchored(s)
    ensures var o, s' := Delete(s, id), After(s, Delete(s, id));
      && (o.ok <==> IsKey(s, id)) && !IsKey(s', id)
      && forall x :: FindRecord(s', x) ==
           if o.ok && x == id then None
           else if Covers(s, id, x) then None
           else FindRecord(s, x)
  {
    hide *;
    AnchoredParts(s);
    AnchoredDelete(s, id);
    var s', n, size := After(s, Delete(s, id)), PagesPer(s), s.mem.header.recordSize;
    KeyIs(s', id);
    KeyIs(s, id);
    forall x
      ensures FindRecord(s', x) ==
        if IsKey(s, id) && x == id then None
        else if Covers(s, id, x) then None
        else FindRecord(s, x)
    {
      FindIs(s, x);
      FindIs(s', x);
      KeyIs(s, x);
      CoversIs(s, id, x);
      if IsKey(s, id) && IsKey(s, x) && x != id {
        StartOf(s, id);
        StartOf(s, x);
        ReadBesideErased(s.disk.pages, size, Start(s, id).value, Start(s, x).value, x);
      }
    }
  }

  lemma AnchoredDelete(s: State, id: int32)
    requires Anchored(s)
    ensures var o, s' := Delete(s, id), After(s, Delete(s, id));
      && (o.ok <==> IsKey(s, id)) && (!o.ok ==> s' == s)
      && s'.mem.header.recordSize == s.mem.header.recordSize && s'.mem.journalOpen == s.mem.journalOpen
      && (s.disk.journal.Some? ==> s'.disk.journal.Some?)
      && ProperIndex(s'.disk.index) && |s'.disk.index.leaf.entries| <= s'.mem.header.recordCount
      && (forall x :: Start(s', x) == if o.ok && x == id then None else Start(s, x))
      && (o.ok ==>
            && 0 <= Start(s, id).value && Start(s, id).value + PagesPer(s) <= |s.disk.pages| <= 0x7FFF_FFFD
            && Allocator.Bounded(s.mem.free)
            && s'.mem.free == Allocator.Release(s.mem.free, Start(s, id).value + 2, PagesPer(s)) == s'.disk.free
            && s'.disk.pages == WithoutRun(s.disk.pages, Start(s, id).value, PagesPer(s)))
  {
    hide ApplyAll, WithoutRun, EraseWrites, EraseEntries, IndexWrites, Allocator.Sound, Allocator.Release,
      ProperIndex, AllStart, Spaced, Allocator.ListsFile, BTree.FirstValue, Leaf.Deleted;
    AnchoredParts(s);
    if IsKey(s, id) {
      ListedBounded(s.mem.free, |s.disk.pages|);
      DeleteEffectAt(s, id);
      FirstAfterDelete(s.disk.index.leaf, id);
    } else {
      ApplyNone(s.disk);
    }
  }

  /** The empty pages after a stretch was emptied and released, and the list. */
  lemma FreeAfterErase(pages: Store, slot: nat, id: int32, n: uint16, f: DBFreeList)
    requires n >= 1 && slot + n <= |pages| && slot + 2 < 0x8000_0000 && StartsAt(pages, n, slot, id)
    requires Allocator.Sound(f, pages) && f.count == Count(pages, PS_EMPTY) % 0x1_0000
    ensures var pages', r := WithoutRun(pages, slot, n), Allocator.Release(f, slot + 2, n);
      && r.count == (Count(pages', PS_EMPTY) + EmptyWithin(pages, slot, n)) % 0x1_0000
      && Allocator.Sound(r, pages')
  {
    hide WithoutRun, Overwrite, Count, EmptyWithin, Allocator.Release, Empties, Allocator.Listed, Leaf.Distinct;
    var pages' := WithoutRun(pages, slot, n);
    ErasedEmpty(pages, slot, n);
    Allocator.ReleasedList(f, slot + 2, n);
    Allocator.CountedOn(Count(pages, PS_EMPTY), n);
    assert !Allocator.EmptyPage(pages, slot + 2);
    Allocator.DistinctAppend(Allocator.Listed(f), slot + 2);
    forall p | p in Allocator.Listed(f) ensures Allocator.EmptyPage(pages', p) {
      assert Allocator.EmptyPage(pages, p);
    }
  }

  lemma ErasedEmpty(pages: Store, slot: nat, n: nat)
    requires slot + n <= |pages|
    ensures Count(WithoutRun(pages, slot, n), PS_EMPTY) == Count(pages, PS_EMPTY) - EmptyWithin(pages, slot, n) + n
  {
    hide WithoutRun, Overwrite, Count, EmptyWithin, Empties;
    var none := Zeros(0);
    SpliceIs(pages, slot, 0, none, n);
    CountSplice(pages, slot, Empties(n), PS_EMPTY);
    CountUniform(Empties(n), PS_EMPTY, PS_EMPTY);
  }

  lemma StartAfterDelete(s: State, id: int32, x: int32)
    requires Anchored(s) && IsKey(s, id)
    ensures KeyStarts(After(s, Delete(s, id)), x) <==> x == id || !StartsWithin(s, id, x)
  {
    hide *;
    AnchoredParts(s);
    AnchoredDelete(s, id);
    var s', n, none := After(s, Delete(s, id)), PagesPer(s), Zeros(0);
    SizeKept(s, s');
    KeyIs(s, x);
    KeyIs(s, id);
    KeyStartsIs(s', x);
    StartOf(s, id);
    StartsWithinIs(s, id, x);
    if x != id && IsKey(s, x) {
      StartOf(s, x);
      StartBeside(s.disk.pages, Start(s, id).value, id, none, n, Start(s, x).value, x);
      KeyStartsMeans(s', x);
    }
  }

  /** A deletion keeps the free list exact and every key at its start exactly when the stretch of its record is
      undivided. Otherwise the free count includes its empty pages twice, or a key starts nowhere. */
  lemma DeleteAnchored(s: State, id: int32)
    requires Anchored(s)
    ensures var s' := After(s, Delete(s, id));
      && (Anchored(s') <==> Undivided(s, id))
      && (IsKey(s, id) ==>
            && Start(s, id).Some?
            && s'.mem.free.count
               == (Count(s'.disk.pages, PS_EMPTY) + EmptyWithin(s.disk.pages, Start(s, id).value, PagesPer(s)))
                  % 0x1_0000)
  {
    hide *;
    AnchoredParts(s);
    AnchoredDelete(s, id);
    KeyIs(s, id);
    UndividedIs(s, id);
    var s', n := After(s, Delete(s, id)), PagesPer(s);
    if IsKey(s, id) {
      var slot := Start(s, id).value;
      StartOf(s, id);
      FreeParts(s);
      FreeAfterErase(s.disk.pages, slot, id, n, s.mem.free);
      EmptyWithinIs(s.disk.pages, slot, n);
      CountOff(Count(s'.disk.pages, PS_EMPTY), EmptyWithin(s.disk.pages, slot, n));
      forall x ensures KeyStarts(s', x) <==> x == id || !StartsWithin(s, id, x) {
        StartAfterDelete(s, id, x);
      }
      if Undivided(s, id) {
        IsAnchored(s');
      }
      if Anchored(s') {
        AnchoredParts(s');
        FreeParts(s');
        AllStartIs(s');
      }
    }
  }
}
