/** Compaction: the records moved together in their page order. */
module Compaction {
  import opened Words
  import opened DbTypes
  import opened Pages
  import opened Disk
  import opened Directories
  import opened Engine
  import opened Maintenance
  import Allocator
  import BTree
  import Leaf

  // ---- What the copy loop writes ----

  /** The j-th page copied for the record that starts at slot `i`; a continuation page is made up when the file ends
      early. */
  function CopiedPage(pages: Store, i: nat, j: nat): DBPage
    requires i < |pages|
  {
    if i + j < |pages| then pages[i + j] else Page(pages[i].id, PS_CONTINUATION, 0, Zeros(506))
  }

  function CopiedRun(pages: Store, i: nat, n: nat): (r: Store)
    requires i < |pages|
    ensures |r| == n
    ensures forall j :: 0 <= j < n ==> r[j] == CopiedPage(pages, i, j)
  {
    seq(n, j requires 0 <= j < n => CopiedPage(pages, i, j))
  }

  /** The scan from slot `i` on: each active page is copied with the run it starts, and the scan continues after the
      run. */
  function CompactFrom(pages: Store, n: nat, i: nat): Store
    requires n >= 1
    decreases |pages| - i
  {
    if i >= |pages| then []
    else if pages[i].status != PS_ACTIVE then CompactFrom(pages, n, i + 1)
    else CopiedRun(pages, i, n) + CompactFrom(pages, n, i + n)
  }

  // ---- When no page is lost: the pages that are not empty, in order ----

  function InUse(pages: Store): (r: Store) {
    if pages == [] then []
    else if pages[|pages| - 1].status == PS_EMPTY then InUse(pages[..|pages| - 1])
    else InUse(pages[..|pages| - 1]) + [pages[|pages| - 1]]
  }

  /** Where a slot moves to: the number of pages in use before it. */
  function Position(pages: Store, s: nat): nat
    requires s <= |pages|
  {
    |InUse(pages[..s])|
  }

  lemma {:induction false} InUseConcat(a: Store, b: Store)
    ensures InUse(a + b) == InUse(a) + InUse(b)
    decreases |b|
  {
    if b == [] {
      assert a + b == a;
    } else {
      assert (a + b)[..|a + b| - 1] == a + b[..|b| - 1];
      InUseConcat(a, b[..|b| - 1]);
    }
  }

  lemma {:induction false} InUseAll(pages: Store)
    requires forall s :: 0 <= s < |pages| ==> pages[s].status != PS_EMPTY
    ensures InUse(pages) == pages
  {
    if pages != [] {
      InUseAll(pages[..|pages| - 1]);
    }
  }

  lemma {:induction false} InUseCounts(pages: Store)
    ensures |InUse(pages)| + Count(pages, PS_EMPTY) == |pages|
    ensures Count(InUse(pages), PS_EMPTY) == 0 && Count(InUse(pages), PS_ACTIVE) == Count(pages, PS_ACTIVE)
  {
    if pages != [] {
      var init, last := pages[..|pages| - 1], pages[|pages| - 1];
      InUseCounts(init);
      if last.status != PS_EMPTY {
        assert (InUse(init) + [last])[..|InUse(init)|] == InUse(init);
      }
    }
  }

  /** A page in use moves to its position, and the next position is one further. */
  lemma Moved(pages: Store, s: nat)
    requires s < |pages|
    ensures pages[s].status == PS_EMPTY ==> Position(pages, s + 1) == Position(pages, s)
    ensures pages[s].status != PS_EMPTY ==>
      Position(pages, s + 1) == Position(pages, s) + 1 && Position(pages, s) < |InUse(pages)|
      && InUse(pages)[Position(pages, s)] == pages[s]
  {
    assert pages[..s + 1][..s] == pages[..s];
    InUseConcat(pages[..s + 1], pages[s + 1..]);
    assert pages == pages[..s + 1] + pages[s + 1..];
  }

  lemma {:induction false} MovedRun(pages: Store, slot: nat, id: int32, n: nat, j: nat)
    requires IsRun(pages, slot, id, n) && j <= n
    ensures Position(pages, slot + j) == Position(pages, slot) + j
    ensures j < n ==>
      && Position(pages, slot) + j < |InUse(pages)|
      && InUse(pages)[Position(pages, slot) + j] == pages[slot + j]
  {
    hide InUse, Position;
    if j > 0 {
      MovedRun(pages, slot, id, n, j - 1);
      Moved(pages, slot + j - 1);
    }
    if j < n {
      Moved(pages, slot + j);
    }
  }

  /** Every page of the compacted file is a page in use. */
  lemma {:induction false} Source(pages: Store, t: nat) returns (s: nat)
    requires t < |InUse(pages)|
    ensures s < |pages| && pages[s].status != PS_EMPTY && Position(pages, s) == t
  {
    var init := pages[..|pages| - 1];
    if t < |InUse(init)| {
      s := Source(init, t);
      assert init[..s] == pages[..s];
    } else {
      s := |pages| - 1;
    }
  }

  function MovedDirectory(pages: Store, dir: Directory): Directory
    requires forall id :: id in dir ==> 0 <= dir[id] <= |pages|
  {
    map id | id in dir :: Position(pages, dir[id])
  }

  lemma InRanges(pages: Store, n: nat, dir: Directory)
    requires Runs(pages, n, dir)
    ensures forall id :: id in dir ==> 0 <= dir[id] && dir[id] + n <= |pages|
  {
    forall id | id in dir ensures 0 <= dir[id] && dir[id] + n <= |pages| {
      InRange(pages, dir[id], id, n);
    }
  }

  /** Every record is a run at its new place, with the same content. */
  lemma MovedRecords(pages: Store, size: uint16, dir: Directory)
    requires Runs(pages, CalculatePagesNeeded(size), dir)
    ensures var n := CalculatePagesNeeded(size);
      (forall id :: id in dir ==> 0 <= dir[id] && dir[id] + n <= |pages|) &&
      var dir' := MovedDirectory(pages, dir);
      Runs(InUse(pages), n, dir') && Records(InUse(pages), size, dir') == Records(pages, size, dir)
  {
    hide InUse, Position, Content, IsRun;
    var n := CalculatePagesNeeded(size);
    InRanges(pages, n, dir);
    var dir' := MovedDirectory(pages, dir);
    forall id | id in dir
      ensures IsRun(InUse(pages), dir'[id], id, n) && dir'[id] + n <= |InUse(pages)|
      ensures Content(InUse(pages), dir'[id], size) == Content(pages, dir[id], size)
    {
      MovedRecord(pages, dir[id], id, size);
      InRange(InUse(pages), dir'[id], id, n);
    }
  }

  lemma MovedRecord(pages: Store, slot: nat, id: int32, size: uint16)
    requires IsRun(pages, slot, id, CalculatePagesNeeded(size))
    ensures var n := CalculatePagesNeeded(size);
      IsRun(InUse(pages), Position(pages, slot), id, n)
      && Content(InUse(pages), Position(pages, slot), size) == Content(pages, slot, size)
  {
    hide InUse, Position;
    var n := CalculatePagesNeeded(size);
    var p := Position(pages, slot);
    forall t | p <= t < p + n ensures t < |InUse(pages)| && InUse(pages)[t] == pages[slot + (t - p)] {
      MovedRun(pages, slot, id, n, t - p);
    }
    MovedRun(pages, slot, id, n, n - 1);
    forall k | 0 <= k < size ensures Content(InUse(pages), p, size)[k] == Content(pages, slot, size)[k] {
      PieceOf(k, size);
      assert InUse(pages)[p + k / DB_PAGE_DATA_SIZE] == pages[slot + (p + k / DB_PAGE_DATA_SIZE - p)];
    }
  }

  /** The compacted file has no page that belongs to no record. */
  lemma MovedOwned(pages: Store, n: nat, dir: Directory)
    requires n >= 1 && Runs(pages, n, dir) && Owned(pages, n, dir)
    ensures (forall id :: id in dir ==> 0 <= dir[id] && dir[id] + n <= |pages|)
    ensures Owned(InUse(pages), n, MovedDirectory(pages, dir))
  {
    hide InUse, Position;
    InRanges(pages, n, dir);
    var dir' := MovedDirectory(pages, dir);
    forall t | 0 <= t < |InUse(pages)|
      ensures InUse(pages)[t].id in dir' && dir'[InUse(pages)[t].id] <= t < dir'[InUse(pages)[t].id] + n
    {
      var s := Source(pages, t);
      Moved(pages, s);
      var id := pages[s].id;
      MovedRun(pages, dir[id], id, n, s - dir[id]);
    }
  }

  // ---- The copy loop keeps exactly the pages in use ----

  /** No run reaches across slot `i`. */
  predicate Boundary(dir: Directory, n: nat, i: int) {
    forall id :: id in dir ==> dir[id] + n <= i || i <= dir[id]
  }

  lemma RunAtBoundary(pages: Store, n: nat, dir: Directory, i: nat)
    requires n >= 1 && Runs(pages, n, dir) && Owned(pages, n, dir) && i < |pages| && Boundary(dir, n, i)
    ensures pages[i].status != PS_EMPTY ==>
      pages[i].status == PS_ACTIVE && pages[i].id in dir && dir[pages[i].id] == i && IsRun(pages, i, pages[i].id, n)
      && Boundary(dir, n, i + n)
    ensures pages[i].status == PS_EMPTY ==> Boundary(dir, n, i + 1)
  {
    if pages[i].status != PS_EMPTY {
      var id := pages[i].id;
      RunPage(pages, dir[id], id, n, i);
      forall x | x in dir ensures dir[x] + n <= i + n || i + n <= dir[x] {
        if x != id {
          RunsDisjoint(pages, n, dir, id, x);
        }
      }
    } else {
      forall x | x in dir ensures dir[x] != i {
        RunPage(pages, dir[x], x, n, dir[x]);
      }
    }
  }

  lemma {:induction false} CompactKeepsInUse(pages: Store, n: nat, dir: Directory, i: nat)
    requires n >= 1 && Runs(pages, n, dir) && Owned(pages, n, dir) && i <= |pages| && Boundary(dir, n, i)
    ensures CompactFrom(pages, n, i) == InUse(pages[i..])
    decreases |pages| - i
  {
    hide Runs, Owned, Boundary, InUse, CopiedRun, IsRun;
    if i == |pages| {
      InUseAll([]);
      assert pages[i..] == [];
    } else {
      RunAtBoundary(pages, n, dir, i);
      if pages[i].status == PS_EMPTY {
        CompactKeepsInUse(pages, n, dir, i + 1);
        SkipEmpty(pages, i);
      } else {
        InRange(pages, i, pages[i].id, n);
        CompactKeepsInUse(pages, n, dir, i + n);
        CopyRun(pages, i, pages[i].id, n);
      }
    }
  }

  lemma SkipEmpty(pages: Store, i: nat)
    requires i < |pages| && pages[i].status == PS_EMPTY
    ensures InUse(pages[i..]) == InUse(pages[i + 1..])
  {
    InUseConcat([pages[i]], pages[i + 1..]);
    assert pages[i..] == [pages[i]] + pages[i + 1..];
  }

  lemma CopyRun(pages: Store, i: nat, id: int32, n: nat)
    requires IsRun(pages, i, id, n)
    requires n >= 1
    ensures InUse(pages[i..]) == CopiedRun(pages, i, n) + InUse(pages[i + n..])
  {
    hide InUse;
    InUseConcat(pages[i..i + n], pages[i + n..]);
    assert pages[i..] == pages[i..i + n] + pages[i + n..];
    InUseAll(pages[i..i + n]);
    assert CopiedRun(pages, i, n) == pages[i..i + n];
  }

  // ---- Where the records go ----

  /** Records keep their order: each one moves to `n` pages times the number of records before it. */
  lemma {:induction false} PositionIsRank(pages: Store, n: nat, dir: Directory, i: nat)
    requires n >= 1 && Runs(pages, n, dir) && Owned(pages, n, dir) && i <= |pages| && Boundary(dir, n, i)
    ensures Position(pages, i) == n * Count(pages[..i], PS_ACTIVE)
    decreases i
  {
    hide Runs, Owned, Boundary, Position, IsRun;
    if i == 0 {
      NothingBefore(pages);
    } else {
      LastBeforeBoundary(pages, n, dir, i);
      if pages[i - 1].status == PS_EMPTY {
        PositionIsRank(pages, n, dir, i - 1);
        Moved(pages, i - 1);
        assert pages[..i][..i - 1] == pages[..i - 1];
      } else {
        PositionIsRank(pages, n, dir, i - n);
        RankAfterRun(pages, i - n, pages[i - 1].id, n);
      }
    }
  }

  lemma NothingBefore(pages: Store)
    ensures Position(pages, 0) == 0 && Count(pages[..0], PS_ACTIVE) == 0
  {
  }

  lemma RankAfterRun(pages: Store, x: nat, id: int32, n: nat)
    requires n >= 1 && IsRun(pages, x, id, n) && Position(pages, x) == n * Count(pages[..x], PS_ACTIVE)
    ensures Position(pages, x + n) == n * Count(pages[..x + n], PS_ACTIVE)
  {
    hide Position, Count;
    MovedRun(pages, x, id, n, n);
    CountRun(pages, x, id, n);
    CountConcat(pages[..x], pages[x..x + n], PS_ACTIVE);
    assert pages[..x + n] == pages[..x] + pages[x..x + n];
    Distribute(n, Count(pages[..x], PS_ACTIVE));
  }

  lemma Distribute(n: nat, k: nat)
    ensures n * (k + 1) == n * k + n
  {
  }

  lemma LastBeforeBoundary(pages: Store, n: nat, dir: Directory, i: nat)
    requires n >= 1 && Runs(pages, n, dir) && Owned(pages, n, dir) && 0 < i <= |pages| && Boundary(dir, n, i)
    ensures pages[i - 1].status != PS_EMPTY ==>
      0 <= i - n && IsRun(pages, i - n, pages[i - 1].id, n) && Boundary(dir, n, i - n)
    ensures pages[i - 1].status == PS_EMPTY ==> Boundary(dir, n, i - 1)
  {
    if pages[i - 1].status != PS_EMPTY {
      var id := pages[i - 1].id;
      assert dir[id] == i - n;
      InRange(pages, dir[id], id, n);
      forall x | x in dir ensures dir[x] + n <= i - n || i - n <= dir[x] {
        if x != id {
          RunsDisjoint(pages, n, dir, id, x);
        }
      }
    } else {
      forall x | x in dir ensures dir[x] + n != i {
        RunPage(pages, dir[x], x, n, dir[x] + n - 1);
      }
    }
  }

  // ---- CompactDatabase ----

  function NoFreePages(): DBFreeList {
    FreeList(0, 0, seq(127, _ => 0))
  }

  /** CompactDatabase: the copied pages replace the file, then the header, the rebuilt index and the refilled free list
      are written. `now` is the time of the compaction. */
  function Compact(s: State, now: int32): Outcome
    requires |CompactFrom(s.disk.pages, PagesPer(s), 0)| <= Allocator.MAX_PAGES
  {
    var pages := CompactFrom(s.disk.pages, PagesPer(s), 0);
    var h := s.mem.header.(lastCompacted := now);
    var f := Allocator.Refilled(pages);
    Outcome(s.mem.(header := h, free := f),
            [RemoveFile] + [ReplaceFile(s.mem.header, NoFreePages(), pages)] + [PutHeader(h)] + RebuildWrites(pages)
              + [PutFree(f)], true)
  }

  lemma CompactsToInUse(s: State)
    requires Full(s)
    ensures CompactFrom(s.disk.pages, PagesPer(s), 0) == InUse(s.disk.pages)
    ensures |InUse(s.disk.pages)| == PagesPer(s) * |Entries(s.disk)| <= |s.disk.pages| <= Allocator.MAX_PAGES
  {
    InRanges(s.disk.pages, PagesPer(s), Dir(s.disk));
    CompactKeepsInUse(s.disk.pages, PagesPer(s), Dir(s.disk), 0);
    assert s.disk.pages[0..] == s.disk.pages;
    InUseCounts(s.disk.pages);
  }

  lemma CompactEffect(s: State, now: int32)
    requires |CompactFrom(s.disk.pages, PagesPer(s), 0)| <= Allocator.MAX_PAGES
    ensures var o, pages := Compact(s, now), CompactFrom(s.disk.pages, PagesPer(s), 0);
      && ApplyAll(s.disk, o.writes[..0]) == s.disk
      && ApplyAll(s.disk, o.writes[..1]) == s.disk.(leading := 0, pages := [])
      && ApplyAll(s.disk, o.writes[..2])
         == s.disk.(leading := 2, header := s.mem.header, free := NoFreePages(), pages := pages)
      && ApplyAll(s.disk, o.writes[..3])
         == s.disk.(leading := 2, header := o.mem.header, free := NoFreePages(), pages := pages)
      && ApplyAll(s.disk, o.writes) == Disk(2, o.mem.header, o.mem.free, pages, s.disk.journal,
                                            BTree.Ready(LeafOf(Scanned(pages, |pages|))))
      && o.mem == s.mem.(header := s.mem.header.(lastCompacted := now), free := Allocator.Refilled(pages))
      && o.writes == o.writes[..3] + RebuildWrites(pages) + [PutFree(o.mem.free)] && |o.writes[..3]| == 3
  {
    hide ApplyAll, RebuildWrites, Allocator.Refilled, Scanned, LeafOf, CompactFrom, NoFreePages;
    var pages, o := CompactFrom(s.disk.pages, PagesPer(s), 0), Compact(s, now);
    var h, f := s.mem.header.(lastCompacted := now), Allocator.Refilled(pages);
    var w := ReplaceFile(s.mem.header, NoFreePages(), pages);
    var ws := [RemoveFile] + [w] + [PutHeader(h)];
    ApplyNone(s.disk);
    ApplyOne(s.disk, RemoveFile);
    ApplyLast(s.disk, [RemoveFile], w);
    ApplyLast(s.disk, [RemoveFile] + [w], PutHeader(h));
    assert o.writes[..1] == [RemoveFile] && o.writes[..2] == [RemoveFile] + [w] && o.writes[..3] == ws;
    ApplyConcat(s.disk, ws, RebuildWrites(pages));
    RebuildEffect(ApplyAll(s.disk, ws));
    ApplyLast(s.disk, ws + RebuildWrites(pages), PutFree(f));
  }

  /** The directory of the compacted file. */
  lemma CompactDirectory(s: State, now: int32)
    requires Full(s)
    ensures |CompactFrom(s.disk.pages, PagesPer(s), 0)| <= Allocator.MAX_PAGES
    ensures var s' := After(s, Compact(s, now));
      && (forall id :: id in Dir(s.disk) ==> 0 <= Dir(s.disk)[id] <= |s.disk.pages|)
      && Indexed(s'.disk) && Dir(s'.disk) == MovedDirectory(s.disk.pages, Dir(s.disk))
      && |Entries(s'.disk)| == |Entries(s.disk)|
  {
    hide CompactFrom, InUse, Runs, Records, Owned, Count, DirectoryOf, Singles, RebuildWrites, Allocator.Refilled,
      Allocator.Sound, Scanned, Position, IdsBelow;
    var pages, n, dir := s.disk.pages, PagesPer(s), Dir(s.disk);
    CompactsToInUse(s);
    CompactEffect(s, now);
    MovedRecords(pages, s.mem.header.recordSize, dir);
    MovedOwned(pages, n, dir);
    InUseCounts(pages);
    EntryCount(s);
    RebuiltIndex(InUse(pages), n, MovedDirectory(pages, dir));
  }

  /** Compaction keeps every record and loses no page; it leaves exactly the records' pages and no free page. */
  lemma CompactKeeps(s: State, now: int32)
    requires Full(s)
    ensures |CompactFrom(s.disk.pages, PagesPer(s), 0)| <= Allocator.MAX_PAGES
    ensures var s' := After(s, Compact(s, now));
      && Full(s') && Data(s') == Data(s)
      && |s'.disk.pages| == PagesPer(s) * s.mem.header.recordCount
      && s'.mem.free.count == 0 && s'.mem.free.len == 0
  {
    hide CompactFrom, InUse, Runs, Records, Owned, Count, DirectoryOf, Singles, RebuildWrites, Allocator.Refilled,
      Allocator.Sound, Scanned, Position;
    var pages, n, dir := s.disk.pages, PagesPer(s), Dir(s.disk);
    CompactsToInUse(s);
    CompactEffect(s, now);
    CompactDirectory(s, now);
    MovedRecords(pages, s.mem.header.recordSize, dir);
    MovedOwned(pages, n, dir);
    InUseCounts(pages);
    Allocator.RefilledSound(InUse(pages));
  }

  /** Compaction keeps the page order of the records: each starts at the pages of the records before it. */
  lemma CompactPositions(s: State, now: int32, id: int32)
    requires Full(s) && id in Dir(s.disk)
    ensures |CompactFrom(s.disk.pages, PagesPer(s), 0)| <= Allocator.MAX_PAGES
    ensures var s' := After(s, Compact(s, now));
      && Indexed(s'.disk) && id in Dir(s'.disk) && 0 <= Dir(s.disk)[id] <= |s.disk.pages|
      && Dir(s'.disk)[id] == PagesPer(s) * Count(s.disk.pages[..Dir(s.disk)[id]], PS_ACTIVE)
  {
    hide CompactFrom, Count, DirectoryOf, Singles, Compact, Position, IsRun;
    CompactDirectory(s, now);
    var pages, n, dir := s.disk.pages, PagesPer(s), Dir(s.disk);
    InRange(pages, dir[id], id, n);
    StartIsBoundary(pages, n, dir, id);
    PositionIsRank(pages, n, dir, dir[id]);
  }

  lemma StartIsBoundary(pages: Store, n: nat, dir: Directory, id: int32)
    requires n >= 1 && Runs(pages, n, dir) && id in dir
    ensures Boundary(dir, n, dir[id])
  {
    forall x | x in dir ensures dir[x] + n <= dir[id] || dir[id] <= dir[x] {
      if x != id {
        RunsDisjoint(pages, n, dir, x, id);
      }
    }
  }

  // ---- ValidateDatabase ----

  /** The page with the given slot is not active, or the index gives its number first for the id it carries. */
  predicate PageIndexed(d: Disk, s: nat)
    requires s < |d.pages|
  {
    d.pages[s].status == PS_ACTIVE ==>
      var vs := BTree.LookIn(d.index, d.pages[s].id);
      vs.Some? && vs.value != [] && vs.value[0] == s + 2
  }

  predicate Validates(s: State) {
    && s.mem.header.signature == DB_SIGNATURE && s.mem.header.version == DB_VERSION
    && (forall k :: 0 <= k < |s.disk.pages| ==> PageIndexed(s.disk, k))
    && Count(s.disk.pages, PS_ACTIVE) == s.mem.header.recordCount
  }

  /** Every database that has lost no page validates. */
  lemma FullValidates(s: State)
    requires Full(s)
    ensures Validates(s)
  {
    hide Leaf.Found, DirectoryOf, Count;
    forall k | 0 <= k < |s.disk.pages| ensures PageIndexed(s.disk, k) {
      if s.disk.pages[k].status == PS_ACTIVE {
        ActiveIsStart(s.disk.pages, PagesPer(s), Dir(s.disk), k);
        Lookup(Entries(s.disk), s.disk.pages[k].id);
      }
    }
  }

  /** Whatever validates has as many active pages as the header counts, with pairwise distinct ids, each the first
      page the index gives for its id. */
  lemma ValidMeans(s: State, j: nat, k: nat)
    requires Validates(s)
    requires j < k < |s.disk.pages| && s.disk.pages[j].status == PS_ACTIVE && s.disk.pages[k].status == PS_ACTIVE
    ensures s.disk.pages[j].id != s.disk.pages[k].id
    ensures Count(s.disk.pages, PS_ACTIVE) == s.mem.header.recordCount
  {
    assert PageIndexed(s.disk, j);
    assert PageIndexed(s.disk, k);
  }
}
