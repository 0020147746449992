/** How to get back to a whole database after a crash: opening it with an empty journal rebuilds the index and the
    counts, deleting the next id removes what an addition left behind, and compacting removes the lost pages. */
module Mending {
  import opened Words
  import opened DbTypes
  import opened Pages
  import opened Disk
  import opened Directories
  import opened Engine
  import opened Refinement
  import opened Maintenance
  import opened Compaction
  import opened Journal
  import opened Recovery
  import opened Transactions
  import opened Torn
  import opened Anchors
  import opened PlainMap
  import opened Upkeep
  import Allocator
  import BTree
  import Leaf

  // ---- What can be mended ----

  /** Whole records at the starts of `dir`, and possibly one more start, of the next id, with space behind it that no
      record uses; every other active page is such a start. Other pages may be anything. */
  predicate Mendable(pages: Store, n: nat, dir: Directory, next: int32, left: Option<int>) {
    && |pages| <= Allocator.MAX_PAGES && next !in dir && Runs(pages, n, dir)
    && match left
       case None => Starts(pages, dir) && |dir| <= MAX_RECORDS
       case Some(slot) =>
         && Starts(pages, dir[next := slot]) && |dir| < MAX_RECORDS && 0 <= slot && slot + n <= |pages|
         && forall id :: id in dir ==> dir[id] + n <= slot || slot + n <= dir[id]
  }

  function AllStarts(dir: Directory, next: int32, left: Option<int>): Directory {
    match left case None => dir case Some(slot) => dir[next := slot]
  }

  lemma MendableParts(pages: Store, n: nat, dir: Directory, next: int32, left: Option<int>)
    requires Mendable(pages, n, dir, next, left)
    ensures |pages| <= Allocator.MAX_PAGES && next !in dir && Runs(pages, n, dir)
    ensures Starts(pages, AllStarts(dir, next, left)) && |AllStarts(dir, next, left)| <= MAX_RECORDS
  {
    hide Runs, Starts;
    if left.Some? {
      assert AllStarts(dir, next, left).Keys == dir.Keys + {next};
    }
  }

  // ---- The pages without what belongs to no record ----

  predicate InRun(dir: Directory, n: nat, s: int) {
    exists id :: id in dir && dir[id] <= s < dir[id] + n
  }

  /** The pages with every page outside the runs emptied. */
  ghost function Cleaned(pages: Store, n: nat, dir: Directory): (r: Store)
    ensures |r| == |pages|
    ensures forall s :: 0 <= s < |pages| ==> r[s] == if InRun(dir, n, s) then pages[s] else EMPTY_PAGE
  {
    seq(|pages|, s requires 0 <= s < |pages| => if InRun(dir, n, s) then pages[s] else EMPTY_PAGE)
  }

  lemma CleanedRuns(pages: Store, size: uint16, dir: Directory)
    requires Runs(pages, CalculatePagesNeeded(size), dir) && size > 0
    ensures var n := CalculatePagesNeeded(size);
      var clean := Cleaned(pages, n, dir);
      && Runs(clean, n, dir) && Records(clean, size, dir) == Records(pages, size, dir) && Owned(clean, n, dir)
  {
    hide IsRun, Content, Cleaned;
    var n := CalculatePagesNeeded(size);
    var clean := Cleaned(pages, n, dir);
    forall id | id in dir
      ensures IsRun(clean, dir[id], id, n)
      ensures IsRun(pages, dir[id], id, n) && dir[id] >= 0 && dir[id] + n <= |pages|
      ensures Content(clean, dir[id], size) == Content(pages, dir[id], size)
    {
      InRange(pages, dir[id], id, n);
      forall s | dir[id] <= s < dir[id] + n ensures clean[s] == pages[s] {
        assert InRun(dir, n, s);
      }
      RunElsewhere(pages, clean, dir[id], id, size);
    }
    forall s | 0 <= s < |clean| && clean[s].status != PS_EMPTY
      ensures clean[s].id in dir && dir[clean[s].id] <= s < dir[clean[s].id] + n
    {
      var id :| id in dir && dir[id] <= s < dir[id] + n;
      RunPage(pages, dir[id], id, n, s);
    }
  }

  /** The copy loop writes the same file for the cleaned pages. */
  lemma {:induction false} SameCompaction(pages: Store, n: nat, dir: Directory, i: nat)
    requires n >= 1 && Runs(pages, n, dir) && Starts(pages, dir)
    ensures CompactFrom(Cleaned(pages, n, dir), n, i) == CompactFrom(pages, n, i)
    decreases if i < |pages| then |pages| - i else 0
  {
    hide Runs, Starts, CopiedRun, Cleaned;
    var clean := Cleaned(pages, n, dir);
    if i < |pages| {
      SameActive(pages, n, dir, i);
      if pages[i].status != PS_ACTIVE {
        SameCompaction(pages, n, dir, i + 1);
      } else {
        SameCompaction(pages, n, dir, i + n);
      }
    }
  }

  lemma SameActive(pages: Store, n: nat, dir: Directory, i: nat)
    requires n >= 1 && i < |pages| && Runs(pages, n, dir) && Starts(pages, dir)
    ensures var clean := Cleaned(pages, n, dir);
      && (clean[i].status == PS_ACTIVE <==> pages[i].status == PS_ACTIVE)
      && (pages[i].status == PS_ACTIVE ==> CopiedRun(clean, i, n) == CopiedRun(pages, i, n))
  {
    hide Cleaned, CopiedRun, InRun, Runs, Starts;
    var clean := Cleaned(pages, n, dir);
    if pages[i].status == PS_ACTIVE {
      ActiveRun(pages, n, dir, i);
      CopiedSlice(pages, i, n);
      CopiedSlice(clean, i, n);
      assert clean[i..i + n] == pages[i..i + n];
    }
  }

  lemma ActiveRun(pages: Store, n: nat, dir: Directory, i: nat)
    requires n >= 1 && i < |pages| && Runs(pages, n, dir) && Starts(pages, dir) && pages[i].status == PS_ACTIVE
    ensures i + n <= |pages| && forall s :: i <= s < i + n ==> InRun(dir, n, s)
  {
    var id := pages[i].id;
    InRange(pages, i, id, n);
    forall s | i <= s < i + n ensures InRun(dir, n, s) {
      assert id in dir && dir[id] <= s < dir[id] + n;
    }
  }

  lemma CopiedSlice(pages: Store, i: nat, n: nat)
    requires n >= 1 && i + n <= |pages|
    ensures CopiedRun(pages, i, n) == pages[i..i + n]
  {
  }

  /** Where no page is lost the empty pages and the pages of the records make up the file. */
  lemma {:induction false} OwnedCounts(pages: Store, n: nat, dir: Directory)
    requires n >= 1 && Runs(pages, n, dir) && Owned(pages, n, dir)
    ensures Count(pages, PS_EMPTY) + n * |dir| == |pages| && Count(pages, PS_ACTIVE) == |dir|
    decreases |dir|
  {
    hide Count, IsRun, WithoutRun;
    if dir == map[] {
      CountUniform(pages, PS_EMPTY, PS_EMPTY);
      CountUniform(pages, PS_ACTIVE, PS_EMPTY);
    } else {
      var id :| id in dir;
      InRange(pages, dir[id], id, n);
      var pages' := WithoutRun(pages, dir[id], n);
      EmptiedCounts(pages, dir[id], id, n);
      DeleteRunOwned(pages, n, dir, id);
      WithoutRunRuns(pages, n, dir, id);
      assert dir.Keys == (dir - {id}).Keys + {id};
      OwnedCounts(pages', n, dir - {id});
      OneMore(n, |dir| - 1);
    }
  }

  lemma WithoutRunRuns(pages: Store, n: nat, dir: Directory, id: int32)
    requires n >= 1 && Runs(pages, n, dir) && id in dir && 0 <= dir[id] && dir[id] + n <= |pages|
    ensures Runs(WithoutRun(pages, dir[id], n), n, dir - {id})
  {
    hide WithoutRun;
    forall x | x in dir - {id} ensures IsRun(WithoutRun(pages, dir[id], n), dir[x], x, n) {
      RunsDisjoint(pages, n, dir, id, x);
      InRange(pages, dir[x], x, n);
    }
  }

  // ---- Compacting ----

  /** The state with its pages cleaned and its free list refilled. */
  ghost function CleanState(s: State): State
    requires Indexed(s.disk) && |s.disk.pages| <= Allocator.MAX_PAGES
  {
    var clean := Cleaned(s.disk.pages, PagesPer(s), Dir(s.disk));
    State(s.mem.(free := Allocator.Refilled(clean)), s.disk.(pages := clean, free := Allocator.Refilled(clean)))
  }

  /** A state whose index gives whole records and whose active pages are their starts. */
  predicate Indexing(s: State) {
    && HeadersAgree(s.mem, s.disk) && |s.disk.pages| <= Allocator.MAX_PAGES && Indexed(s.disk)
    && Runs(s.disk.pages, PagesPer(s), Dir(s.disk)) && Starts(s.disk.pages, Dir(s.disk))
    && s.mem.header.recordCount == |Entries(s.disk)| && IdsBelow(Dir(s.disk), s.disk.header.nextRecordId)
  }

  lemma IndexingParts(s: State)
    requires Indexing(s)
    ensures HeadersAgree(s.mem, s.disk) && |s.disk.pages| <= Allocator.MAX_PAGES && Indexed(s.disk)
    ensures s.mem.header.recordSize > 0 && PagesPer(s) == CalculatePagesNeeded(s.mem.header.recordSize)
    ensures Runs(s.disk.pages, PagesPer(s), Dir(s.disk)) && Starts(s.disk.pages, Dir(s.disk))
    ensures s.mem.header.recordCount == |Entries(s.disk)| == |Dir(s.disk)|
    ensures IdsBelow(Dir(s.disk), s.disk.header.nextRecordId)
  {
    hide Runs, Starts, DirectoryOf, Singles, IdsBelow;
    DirectorySize(Entries(s.disk));
  }

  lemma CleanFull(s: State)
    requires Indexing(s)
    ensures Full(CleanState(s))
    ensures Data(CleanState(s)) == Records(s.disk.pages, s.mem.header.recordSize, Dir(s.disk))
  {
    hide Runs, Starts, Owned, DirectoryOf, Singles, IdsBelow, Records, Count, Cleaned, Allocator.Refilled,
      Allocator.Sound, Operable;
    IndexingParts(s);
    var pages, n, dir := s.disk.pages, PagesPer(s), Dir(s.disk);
    var clean := Cleaned(pages, n, dir);
    CleanedRuns(pages, s.mem.header.recordSize, dir);
    OwnedCounts(clean, n, dir);
    Allocator.RefilledSound(clean);
    CoherentParts(CleanState(s));
  }

  /** Compacting such a state leaves a whole one with the same records. */
  lemma CompactMends(s: State, now: int32)
    requires Indexing(s)
    ensures |CompactFrom(s.disk.pages, PagesPer(s), 0)| <= Allocator.MAX_PAGES
    ensures var s' := After(s, Compact(s, now));
      && Full(s') && Data(s') == Records(s.disk.pages, s.mem.header.recordSize, Dir(s.disk))
      && |s'.disk.pages| == PagesPer(s) * s.mem.header.recordCount
      && s'.mem == s.mem.(header := s.mem.header.(lastCompacted := now), free := s'.mem.free)
      && s'.disk.header == s'.mem.header
  {
    hide *;
    IndexingParts(s);
    var c := CleanState(s);
    CleanFull(s);
    CompactKeeps(c, now);
    CleanIs(s);
    SameCompaction(s.disk.pages, PagesPer(s), Dir(s.disk), 0);
    SamePagesPer(s, c);
    CompactEffect(s, now);
    CompactEffect(c, now);
    SameAfter(s, c, now);
  }

  lemma CleanIs(s: State)
    requires Indexed(s.disk) && |s.disk.pages| <= Allocator.MAX_PAGES
    ensures var c := CleanState(s);
      && c.disk == s.disk.(pages := Cleaned(s.disk.pages, PagesPer(s), Dir(s.disk)), free := c.disk.free)
      && c.mem == s.mem.(free := c.mem.free)
  {
    hide Cleaned, Allocator.Refilled, DirectoryOf;
  }

  lemma SameAfter(s: State, c: State, now: int32)
    requires |CompactFrom(s.disk.pages, PagesPer(s), 0)| <= Allocator.MAX_PAGES
    requires CompactFrom(c.disk.pages, PagesPer(c), 0) == CompactFrom(s.disk.pages, PagesPer(s), 0)
    requires c.mem == s.mem.(free := c.mem.free) && c.disk.journal == s.disk.journal
    ensures After(c, Compact(c, now)) == After(s, Compact(s, now))
    ensures var s' := After(s, Compact(s, now));
      && s'.mem == s.mem.(header := s.mem.header.(lastCompacted := now), free := s'.mem.free)
      && s'.disk.header == s'.mem.header
  {
    hide ApplyAll, CompactFrom, Compact, Allocator.Refilled, Scanned, LeafOf, RebuildWrites;
    CompactEffect(s, now);
    CompactEffect(c, now);
  }

  // ---- Opening with an empty journal ----

  /** BeginTransaction and CloseDatabase after opening: a transaction without operations is left pending. */
  function Rechecking(d: Disk): Disk
    requires Opens(d)
  {
    Closed(Begun(Reopened(d)))
  }

  lemma OpenedFacts(d: Disk)
    requires Opens(d)
    ensures var r := Reopened(d);
      r.disk.leading == 2 && r.disk.index != BTree.NoHeader && !r.mem.journalOpen && !r.mem.header.journalPending
  {
    hide Redo, RebuildWrites, RedoWrites, Allocator.Refilled, Scanned, LeafOf, ActiveCount;
    ApplyNone(d);
    if d.header.journalPending && d.journal.Some? {
      ReplayEffect(d);
    } else if d.header.journalPending {
      ApplyOne(d, PutHeader(d.header.(journalPending := false)));
    }
  }

  lemma RecheckingIs(d: Disk)
    requires Opens(d)
    ensures var r, e := Reopened(d), Rechecking(d);
      && e.leading == 2 && e.index != BTree.NoHeader && e.pages == r.disk.pages && e.journal == Some([])
      && e.header == r.mem.header.(journalPending := true)
  {
    hide ApplyAll, Open, Reopened, Openable;
    OpensIs(d);
    OpenedFacts(d);
    var r := Reopened(d);
    BeginEffect(r);
    ClosedIs(Begun(r));
  }

  lemma ClosedIs(s: State)
    requires s.disk.index != BTree.NoHeader
    ensures var e := Closed(s);
      e == s.disk.(header := s.mem.header, free := s.mem.free, index := e.index) && e.index != BTree.NoHeader
  {
    hide ApplyAll;
    ApplyOne(s.disk, PutHeader(s.mem.header));
    ApplyLast(s.disk, [PutHeader(s.mem.header)], PutFree(s.mem.free));
    ApplyLast(s.disk, [PutHeader(s.mem.header)] + [PutFree(s.mem.free)], PutIndex(BTree.HeaderWritten));
  }

  /** What opening such a disk gives: the pages as they are, with an index of all starts. */
  predicate Rechecked(r: State, pages: Store, h: DBHeader, starts: Directory) {
    && HeadersAgree(r.mem, r.disk) && FreeAgrees(r.mem, r.disk) && Indexed(r.disk)
    && r.disk.pages == pages && Dir(r.disk) == starts && r.mem.header.recordCount == |Entries(r.disk)|
    && r.mem.header == h.(recordCount := r.mem.header.recordCount) && r.disk.header == r.mem.header
    && !r.mem.journalOpen
  }

  lemma Rechecks(d: Disk, starts: Directory)
    requires Opens(d) && GoodHeader(Reopened(d).mem.header) && |Reopened(d).disk.pages| <= Allocator.MAX_PAGES
    requires Starts(Reopened(d).disk.pages, starts) && |starts| <= MAX_RECORDS
    ensures Opens(Rechecking(d))
    ensures Rechecked(Reopened(Rechecking(d)), Reopened(d).disk.pages, Reopened(d).mem.header, starts)
  {
    hide *;
    OpensIs(d);
    var e, pages, h := Rechecking(d), Reopened(d).disk.pages, Reopened(d).mem.header;
    RecheckingIs(d);
    OpenedFacts(d);
    NothingRedone(e);
    GoodPending(h);
    StartsCount(pages, starts);
    RecoveredStarts(e, starts);
    OpensIs(e);
    RecoveredHeaderIs(e);
    RecheckedFrom(Reopened(e), pages, h, starts);
  }

  lemma NothingRedone(e: Disk)
    requires e.journal == Some([]) && |e.pages| <= Allocator.MAX_PAGES
    ensures Replayable(e) && Redone(e) == e.pages
  {
  }

  lemma GoodPending(h: DBHeader)
    ensures GoodHeader(h) ==> GoodHeader(h.(journalPending := true))
  {
  }

  lemma RecoveredHeaderIs(e: Disk)
    requires e.leading == 2 && e.header.journalPending && e.index != BTree.NoHeader
    requires GoodHeader(e.header) && Replayable(e)
    ensures Open(e).Some? && !Reopened(e).mem.journalOpen
    ensures var h := Reopened(e).mem.header;
      h == e.header.(recordCount := h.recordCount, journalPending := false)
  {
    hide RedoWrites, RebuildWrites, Allocator.Refilled, ActiveCount, Redo, ApplyAll;
  }

  lemma RecheckedFrom(r: State, pages: Store, h: DBHeader, starts: Directory)
    requires HeadersAgree(r.mem, r.disk) && FreeAgrees(r.mem, r.disk) && Indexed(r.disk)
    requires r.disk.pages == pages && Dir(r.disk) == starts && r.mem.header.recordCount == |Entries(r.disk)|
    requires r.mem.header
      == h.(journalPending := true).(recordCount := r.mem.header.recordCount, journalPending := false)
    requires r.disk.header == r.mem.header && !h.journalPending && !r.mem.journalOpen
    ensures Rechecked(r, pages, h, starts)
  {
    hide FreeAgrees, DirectoryOf, Singles;
  }

  // ---- Deleting the next id ----

  lemma StartsWithout(pages: Store, n: nat, dir: Directory, next: int32, slot: nat)
    requires n >= 1 && Mendable(pages, n, dir, next, Some(slot))
    ensures Starts(WithoutRun(pages, slot, n), dir)
  {
    hide WithoutRun, Runs;
    var pages' := WithoutRun(pages, slot, n);
    assert dir[next := slot] - {next} == dir;
    forall s | 0 <= s < |pages'| && pages'[s].status == PS_ACTIVE
      ensures pages'[s].id in dir && dir[pages'[s].id] == s
    {
      assert pages[s] == pages'[s];
    }
    forall id | id in dir
      ensures 0 <= dir[id] < |pages'| && pages'[dir[id]].status == PS_ACTIVE && pages'[dir[id]].id == id
    {
      assert dir[next := slot][id] == dir[id];
    }
  }

  lemma RecheckedAnchored(r: State, pages: Store, h: DBHeader, dir: Directory, next: int32, left: Option<int>)
    requires Mendable(pages, PagesPer(r), dir, next, left) && Rechecked(r, pages, h, AllStarts(dir, next, left))
    ensures Anchored(r)
  {
    hide Runs, Starts, HeadersAgree, FreeAgrees, DirectoryOf, Singles, Anchored;
    MendableParts(pages, PagesPer(r), dir, next, left);
    forall id | id in Dir(r.disk) ensures Dir(r.disk)[id] + PagesPer(r) <= |pages| {
      if id in dir {
        RunInFile(pages, PagesPer(r), dir, id);
      }
    }
    StartsAnchored(r);
  }

  lemma RunInFile(pages: Store, n: nat, dir: Directory, id: int32)
    requires Runs(pages, n, dir) && id in dir
    ensures 0 <= dir[id] && dir[id] + n <= |pages|
  {
    InRange(pages, dir[id], id, n);
  }

  /** Deleting the next id removes what an addition left; when it left nothing the deletion fails. */
  lemma DeleteMends(r: State, pages: Store, h: DBHeader, dir: Directory, next: int32, left: Option<int>)
    requires Mendable(pages, PagesPer(r), dir, next, left) && Rechecked(r, pages, h, AllStarts(dir, next, left))
    requires r.mem.header.nextRecordId == next && IdsBelow(dir, next)
    ensures Operable(r) && (Delete(r, next).ok <==> left.Some?)
    ensures var s := After(r, Delete(r, next));
      && Indexing(s) && Dir(s.disk) == dir
      && Records(s.disk.pages, s.mem.header.recordSize, dir) == Records(pages, r.mem.header.recordSize, dir)
      && s.mem.header == r.mem.header.(recordCount := s.mem.header.recordCount) && !s.mem.journalOpen
  {
    hide *;
    MendableParts(pages, PagesPer(r), dir, next, left);
    RecheckedAnchored(r, pages, h, dir, next, left);
    AnchoredParts(r);
    RecheckedParts(r, pages, h, AllStarts(dir, next, left));
    AllStartsAre(dir, next, left);
    FirstIs(r.disk, next);
    var s := After(r, Delete(r, next));
    if left.None? {
      DeleteNothing(r, next);
    } else {
      var slot, n := left.value, PagesPer(r);
      LeftApart(pages, n, dir, next, slot);
      StartsWithout(pages, n, dir, next, slot);
      RecordsElsewhere(pages, WithoutRun(pages, slot, n), r.mem.header.recordSize, dir, slot, slot + n);
      WithoutRunIs(pages, slot, n);
      DeletedState(r, next);
    }
    IndexingFrom(s, dir);
  }

  lemma RecheckedParts(r: State, pages: Store, h: DBHeader, starts: Directory)
    requires Rechecked(r, pages, h, starts)
    ensures HeadersAgree(r.mem, r.disk) && FreeAgrees(r.mem, r.disk) && Indexed(r.disk)
    ensures r.disk.pages == pages && Dir(r.disk) == starts && r.mem.header.recordCount == |Entries(r.disk)|
    ensures r.mem.header == h.(recordCount := r.mem.header.recordCount) && r.disk.header == r.mem.header
    ensures !r.mem.journalOpen && r.disk.header.nextRecordId == r.mem.header.nextRecordId
  {
    hide FreeAgrees, DirectoryOf, Singles;
  }

  lemma AllStartsAre(dir: Directory, next: int32, left: Option<int>)
    ensures left.None? ==> AllStarts(dir, next, left) == dir
    ensures left.Some? ==> next in AllStarts(dir, next, left) && AllStarts(dir, next, left)[next] == left.value
    ensures left.Some? && next !in dir ==> AllStarts(dir, next, left) - {next} == dir
  {
  }

  lemma LeftApart(pages: Store, n: nat, dir: Directory, next: int32, slot: int)
    requires Mendable(pages, n, dir, next, Some(slot))
    ensures 0 <= slot && slot + n <= |pages|
    ensures forall id :: id in dir ==> dir[id] + n <= slot || slot + n <= dir[id]
  {
    hide Runs, Starts;
  }

  lemma WithoutRunIs(pages: Store, slot: nat, n: nat)
    requires slot + n <= |pages|
    ensures |WithoutRun(pages, slot, n)| == |pages|
  {
    hide WithoutRun;
  }

  lemma DeleteNothing(r: State, id: int32)
    requires Operable(r) && BTree.FirstValue(r.disk.index, id).None?
    ensures After(r, Delete(r, id)) == r && !Delete(r, id).ok
  {
    hide ApplyAll;
    ApplyNone(r.disk);
  }

  lemma DeletedState(r: State, id: int32)
    requires Operable(r) && HeadersAgree(r.mem, r.disk) && Indexed(r.disk) && id in Dir(r.disk)
    requires r.disk.header == r.mem.header && r.mem.header.recordCount == |Entries(r.disk)|
    ensures 0 <= Dir(r.disk)[id] && Dir(r.disk)[id] + PagesPer(r) <= |r.disk.pages| && Delete(r, id).ok
    ensures var s := After(r, Delete(r, id));
      && HeadersAgree(s.mem, s.disk) && Indexed(s.disk) && Dir(s.disk) == Dir(r.disk) - {id}
      && s.disk.pages == WithoutRun(r.disk.pages, Dir(r.disk)[id], PagesPer(r))
      && s.mem.header.recordCount == |Entries(s.disk)| == |Entries(r.disk)| - 1
      && s.mem.header == r.mem.header.(recordCount := s.mem.header.recordCount) && s.disk.header == s.mem.header
      && s.mem.journalOpen == r.mem.journalOpen
  {
    hide ApplyAll, WithoutRun, EraseWrites, EraseEntries, IndexWrites, DirectoryOf, Singles, Leaf.Deleted,
      Allocator.Release, BTree.FirstValue, Spaced, Allocator.ListsFile;
    FirstIs(r.disk, id);
    DeleteEffectAt(r, id);
    Remove(Entries(r.disk), id);
  }

  lemma IndexingFrom(s: State, dir: Directory)
    requires HeadersAgree(s.mem, s.disk) && |s.disk.pages| <= Allocator.MAX_PAGES && Indexed(s.disk)
    requires Dir(s.disk) == dir && Runs(s.disk.pages, CalculatePagesNeeded(s.mem.header.recordSize), dir)
      && Starts(s.disk.pages, dir)
    requires s.mem.header.recordCount == |Entries(s.disk)| && IdsBelow(dir, s.disk.header.nextRecordId)
    ensures Indexing(s)
  {
    hide Runs, Starts, HeadersAgree, DirectoryOf, Singles, IdsBelow;
  }

  // ---- The whole repair ----

  /** The plain map with the given records, outside a transaction and in a file of their pages alone. */
  function Smallest(size: uint16, records: map<int32, bytes>, next: int32): Plain {
    Plain(size, records, next, CalculatePagesNeeded(size) * |records|, Idle)
  }

  /** A disk that opens, over pages that can be mended to the given records. */
  predicate Salvageable(d: Disk, size: uint16, next: int32, records: map<int32, bytes>, dir: Directory,
                        left: Option<int>) {
    && Opens(d)
    && var r := Reopened(d);
    && GoodHeader(r.mem.header) && r.mem.header.recordSize == size && r.mem.header.nextRecordId == next
    && Mendable(r.disk.pages, CalculatePagesNeeded(size), dir, next, left) && IdsBelow(dir, next)
    && Records(r.disk.pages, size, dir) == records
  }

  lemma SalvageableParts(d: Disk, size: uint16, next: int32, records: map<int32, bytes>, dir: Directory,
                         left: Option<int>)
    requires Salvageable(d, size, next, records, dir, left)
    ensures Opens(d) && Openable(d) && Open(d).Some?
    ensures d.leading == 2 && d.header.journalPending ==> d.journal.None? || Replayable(d)
    ensures var r := Reopened(d);
      && GoodHeader(r.mem.header) && r.mem.header.recordSize == size && r.mem.header.nextRecordId == next
      && Mendable(r.disk.pages, CalculatePagesNeeded(size), dir, next, left) && IdsBelow(dir, next)
      && Runs(r.disk.pages, CalculatePagesNeeded(size), dir) && Records(r.disk.pages, size, dir) == records
  {
    hide GoodHeader, Runs, Starts, Records, IdsBelow, Reopened, Open;
  }

  /** Opening the database, beginning a transaction, closing and opening again, deleting the next id and compacting: the
      state in the end, if each of these steps can be taken. */
  function Mended(d: Disk, now: int32): Option<State> {
    if !Opens(d) || !Opens(Rechecking(d)) then None
    else
      var r := Reopened(Rechecking(d));
      if !Operable(r) then None
      else
        var s := After(r, Delete(r, r.mem.header.nextRecordId));
        if |CompactFrom(s.disk.pages, PagesPer(s), 0)| > Allocator.MAX_PAGES then None
        else Some(After(s, Compact(s, now)))
  }

  /** The repair can be carried out and leaves a database that represents the plain map. */
  predicate MendsTo(d: Disk, now: int32, p: Plain) {
    match Mended(d, now)
    case None => false
    case Some(s) => Represents(s, p)
  }

  lemma MendsToIs(d: Disk, now: int32, p: Plain)
    ensures MendsTo(d, now, p) <==> Mended(d, now).Some? && Represents(Mended(d, now).value, p)
  {
    hide Mended, Represents;
  }

  lemma MendedIs(d: Disk, now: int32, r: State, s: State)
    requires Opens(d) && Opens(Rechecking(d)) && r == Reopened(Rechecking(d)) && Operable(r)
    requires s == After(r, Delete(r, r.mem.header.nextRecordId))
    requires |CompactFrom(s.disk.pages, PagesPer(s), 0)| <= Allocator.MAX_PAGES
    ensures Mended(d, now) == Some(After(s, Compact(s, now)))
  {
    hide Opens, Rechecking, Reopened, Operable, Delete, Compact, CompactFrom, PagesPer, After;
  }

  /** The repair leaves a whole database with exactly the records in the runs of `dir`, in a file of their pages
      alone. */
  lemma Mends(d: Disk, size: uint16, next: int32, records: map<int32, bytes>, dir: Directory, left: Option<int>,
              now: int32)
    requires Salvageable(d, size, next, records, dir, left)
    ensures MendsTo(d, now, Smallest(size, records, next))
  {
    hide *;
    SalvageableParts(d, size, next, records, dir, left);
    var pages, h, n := Reopened(d).disk.pages, Reopened(d).mem.header, CalculatePagesNeeded(size);
    MendableParts(pages, n, dir, next, left);
    Rechecks(d, AllStarts(dir, next, left));
    OpensIs(Rechecking(d));
    var r := Reopened(Rechecking(d));
    RecheckedParts(r, pages, h, AllStarts(dir, next, left));
    PagesPerIs(r);
    DeleteMends(r, pages, h, dir, next, left);
    var s := After(r, Delete(r, next));
    CompactMends(s, now);
    IndexingParts(s);
    MendedIs(d, now, r, s);
    var s' := After(s, Compact(s, now));
    RecordsSize(s.disk.pages, size, dir);
    SmallestIs(size, records, next);
    RepresentsFrom(s', Smallest(size, records, next));
    MendsToIs(d, now, Smallest(size, records, next));
  }

  lemma SmallestIs(size: uint16, records: map<int32, bytes>, next: int32)
    ensures Smallest(size, records, next) == Plain(size, records, next, CalculatePagesNeeded(size) * |records|, Idle)
  {
  }

  lemma RecordsSize(pages: Store, size: uint16, dir: Directory)
    requires Runs(pages, CalculatePagesNeeded(size), dir)
    ensures |Records(pages, size, dir)| == |dir|
  {
    hide Content;
    assert Records(pages, size, dir).Keys == dir.Keys;
    assert |Records(pages, size, dir)| == |Records(pages, size, dir).Keys| && |dir| == |dir.Keys|;
  }

  lemma RepresentsFrom(s: State, p: Plain)
    requires Full(s) && Data(s) == p.records && s.mem.header.recordSize == p.size
    requires s.mem.header.nextRecordId == p.next && s.disk.header == s.mem.header
    requires !s.mem.journalOpen && p.mode.Idle? && |s.disk.pages| <= p.pages
    ensures Represents(s, p)
  {
    hide Full, Data;
  }
}
