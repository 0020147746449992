/** Refilling the free list, rebuilding the index, compacting and validating. */
module Maintenance {
  import opened Words
  import opened DbTypes
  import opened Pages
  import opened Disk
  import opened Directories
  import opened Engine
  import Allocator
  import BTree
  import Leaf

  // ---- UpdateFreePages ----

  function UpdateFree(s: State): Outcome
    requires |s.disk.pages| <= Allocator.MAX_PAGES
  {
    var f := Allocator.Refilled(s.disk.pages);
    Outcome(s.mem.(free := f), [PutFree(f)], true)
  }

  // ---- RebuildIndex ----

  /** The index after the active pages among the first `k` were entered in order; an insertion that fails is ignored. */
  function Scanned(pages: Store, k: nat): (es: seq<Leaf.Entry>)
    requires k <= |pages| <= Allocator.MAX_PAGES
    ensures |es| <= 60
  {
    if k == 0 then []
    else
      var es := Scanned(pages, k - 1);
      if pages[k - 1].status != PS_ACTIVE then es
      else
        match Leaf.Inserted(es, pages[k - 1].id, k + 1)
        case None => es
        case Some(r) => r
  }

  function LeafOf(es: seq<Leaf.Entry>): Leaf.Leaf
    requires |es| <= 60
  {
    BTree.EmptyLeaf().(entries := es)
  }

  /** The index writes of the scan of the first `k` pages. */
  function ScanWrites(pages: Store, k: nat): seq<Write>
    requires k <= |pages| <= Allocator.MAX_PAGES
  {
    if k == 0 then []
    else if Scanned(pages, k) == Scanned(pages, k - 1) then ScanWrites(pages, k - 1)
    else ScanWrites(pages, k - 1) + [PutIndex(BTree.LeafWritten(LeafOf(Scanned(pages, k))))]
  }

  /** Closing the index and creating it anew: the header page written back, the file truncated, and then a header page
      and an empty leaf. */
  function CloseIndex(): seq<Write> {
    [PutIndex(BTree.HeaderWritten)]
  }

  function TruncateIndex(): seq<Write> {
    CloseIndex() + [PutIndex(BTree.Truncated)]
  }

  function HeadIndex(): seq<Write> {
    TruncateIndex() + [PutIndex(BTree.HeaderWritten)]
  }

  function Recreate(): (ws: seq<Write>)
    ensures |ws| == 4
    ensures ws[..0] == [] && ws[..1] == CloseIndex() && ws[..2] == TruncateIndex() && ws[..3] == HeadIndex()
  {
    HeadIndex() + [PutIndex(BTree.LeafWritten(BTree.EmptyLeaf()))]
  }

  function RebuildWrites(pages: Store): seq<Write>
    requires |pages| <= Allocator.MAX_PAGES
  {
    Recreate() + ScanWrites(pages, |pages|)
  }

  function Rebuild(s: State): Outcome
    requires |s.disk.pages| <= Allocator.MAX_PAGES
  {
    Outcome(s.mem, RebuildWrites(s.disk.pages), true)
  }

  lemma RecreateEffect(d: Disk)
    ensures ApplyAll(d, CloseIndex()) == d.(index := BTree.ApplyIndex(d.index, BTree.HeaderWritten))
    ensures ApplyAll(d, TruncateIndex()) == d.(index := BTree.NoHeader)
    ensures ApplyAll(d, HeadIndex()) == d.(index := BTree.NoLeaf)
    ensures ApplyAll(d, Recreate()) == d.(index := BTree.Ready(BTree.EmptyLeaf()))
  {
    hide ApplyAll, BTree.EmptyLeaf;
    ApplyOne(d, PutIndex(BTree.HeaderWritten));
    ApplyLast(d, CloseIndex(), PutIndex(BTree.Truncated));
    ApplyLast(d, TruncateIndex(), PutIndex(BTree.HeaderWritten));
    ApplyLast(d, HeadIndex(), PutIndex(BTree.LeafWritten(BTree.EmptyLeaf())));
  }

  lemma EmptyScan(d: Disk, pages: Store)
    requires |pages| <= Allocator.MAX_PAGES && d.index == BTree.Ready(BTree.EmptyLeaf())
    ensures ApplyAll(d, []) == d.(index := BTree.Ready(LeafOf(Scanned(pages, 0))))
  {
  }

  lemma {:induction false} ScanEffect(d: Disk, pages: Store, k: nat)
    requires k <= |pages| <= Allocator.MAX_PAGES && d.index == BTree.Ready(BTree.EmptyLeaf())
    ensures ApplyAll(d, ScanWrites(pages, k)) == d.(index := BTree.Ready(LeafOf(Scanned(pages, k))))
  {
    hide Scanned, ApplyAll, BTree.EmptyLeaf, LeafOf;
    if k == 0 {
      EmptyScan(d, pages);
    } else {
      ScanEffect(d, pages, k - 1);
      if Scanned(pages, k) != Scanned(pages, k - 1) {
        ApplyLast(d, ScanWrites(pages, k - 1), PutIndex(BTree.LeafWritten(LeafOf(Scanned(pages, k)))));
      }
    }
  }

  lemma RebuildEffect(d: Disk)
    requires |d.pages| <= Allocator.MAX_PAGES
    ensures ApplyAll(d, RebuildWrites(d.pages)) == d.(index := BTree.Ready(LeafOf(Scanned(d.pages, |d.pages|))))
  {
    hide Scanned, ScanWrites, ApplyAll, Recreate, BTree.EmptyLeaf;
    RecreateEffect(d);
    ApplyConcat(d, Recreate(), ScanWrites(d.pages, |d.pages|));
    ScanEffect(ApplyAll(d, Recreate()), d.pages, |d.pages|);
  }

  // ---- What the scan finds ----

  /** An active page is the start of the run of the record whose id it carries. */
  lemma ActiveIsStart(pages: Store, n: nat, dir: Directory, s: nat)
    requires Runs(pages, n, dir) && Owned(pages, n, dir) && s < |pages| && pages[s].status == PS_ACTIVE
    ensures pages[s].id in dir && dir[pages[s].id] == s
  {
    var id := pages[s].id;
    RunPage(pages, dir[id], id, n, s);
  }

  lemma StartIsActive(pages: Store, n: nat, dir: Directory, id: int32)
    requires n >= 1 && Runs(pages, n, dir) && id in dir
    ensures 0 <= dir[id] && dir[id] + n <= |pages| && pages[dir[id]].status == PS_ACTIVE && pages[dir[id]].id == id
  {
    RunPage(pages, dir[id], id, n, dir[id]);
  }

  /** The directory gives exactly the active pages, each for the id it carries. */
  predicate Starts(pages: Store, dir: Directory) {
    && (forall s :: 0 <= s < |pages| && pages[s].status == PS_ACTIVE ==> pages[s].id in dir && dir[pages[s].id] == s)
    && (forall id :: id in dir ==>
          0 <= dir[id] < |pages| && pages[dir[id]].status == PS_ACTIVE && pages[dir[id]].id == id)
  }

  lemma RunsStart(pages: Store, n: nat, dir: Directory)
    requires n >= 1 && Runs(pages, n, dir) && Owned(pages, n, dir)
    ensures Starts(pages, dir)
  {
    forall s | 0 <= s < |pages| && pages[s].status == PS_ACTIVE ensures pages[s].id in dir && dir[pages[s].id] == s {
      ActiveIsStart(pages, n, dir, s);
    }
    forall id | id in dir
      ensures 0 <= dir[id] < |pages| && pages[dir[id]].status == PS_ACTIVE && pages[dir[id]].id == id
    {
      StartIsActive(pages, n, dir, id);
    }
  }

  /** How many active pages come before a slot. */
  function Rank(pages: Store, slot: nat): nat
    requires slot <= |pages|
  {
    Count(pages[..slot], PS_ACTIVE)
  }

  /** The ids whose pages are among the first `k` and among the first thirty-six active ones. */
  function FirstStarts(pages: Store, dir: Directory, k: nat): Directory
    requires Starts(pages, dir)
  {
    map id | id in dir && dir[id] < k && Rank(pages, dir[id]) < MAX_RECORDS :: dir[id]
  }

  /** The scan of the active pages enters exactly the first thirty-six of them. */
  lemma {:induction false} ScanKeepsFirst(pages: Store, dir: Directory, k: nat)
    requires k <= |pages| <= Allocator.MAX_PAGES && Starts(pages, dir)
    ensures var es := Scanned(pages, k);
      && Singles(es) && DirectoryOf(es) == FirstStarts(pages, dir, k)
      && |es| == if Rank(pages, k) < MAX_RECORDS then Rank(pages, k) else MAX_RECORDS
  {
    hide DirectoryOf, Singles, Leaf.Inserted, Starts, FirstStarts, Count;
    FirstStartsNext(pages, dir, k);
    if k == 0 {
      NoEntries();
      NoneCounted(pages);
    } else {
      ScanKeepsFirst(pages, dir, k - 1);
      CountNext(pages, k - 1);
      if pages[k - 1].status == PS_ACTIVE {
        Enter(Scanned(pages, k - 1), pages[k - 1].id, k + 1);
      }
    }
  }

  lemma FirstStartsNext(pages: Store, dir: Directory, k: nat)
    requires k <= |pages| && Starts(pages, dir)
    ensures k == 0 ==> FirstStarts(pages, dir, k) == map[]
    ensures k > 0 && pages[k - 1].status == PS_ACTIVE ==>
      && pages[k - 1].id !in FirstStarts(pages, dir, k - 1)
      && FirstStarts(pages, dir, k)
         == (if Rank(pages, k - 1) < MAX_RECORDS then FirstStarts(pages, dir, k - 1)[pages[k - 1].id := k - 1]
             else FirstStarts(pages, dir, k - 1))
    ensures k > 0 && pages[k - 1].status != PS_ACTIVE ==> FirstStarts(pages, dir, k) == FirstStarts(pages, dir, k - 1)
  {
    hide Rank;
  }

  lemma NoneCounted(pages: Store)
    ensures Count(pages[..0], PS_ACTIVE) == 0
  {
  }

  lemma CountNext(pages: Store, k: nat)
    requires k < |pages|
    ensures Count(pages[..k + 1], PS_ACTIVE)
         == Count(pages[..k], PS_ACTIVE) + if pages[k].status == PS_ACTIVE then 1 else 0
  {
    assert pages[..k + 1][..k] == pages[..k];
  }

  /** While at most thirty-six pages are active, a rebuilt index is the directory of the active pages. */
  lemma ScannedStarts(pages: Store, dir: Directory)
    requires |pages| <= Allocator.MAX_PAGES && Starts(pages, dir) && Count(pages, PS_ACTIVE) <= MAX_RECORDS
    ensures var es := Scanned(pages, |pages|);
      Singles(es) && DirectoryOf(es) == dir && |es| == Count(pages, PS_ACTIVE)
  {
    hide DirectoryOf, Singles, Count, Scanned;
    ScanKeepsFirst(pages, dir, |pages|);
    assert pages[..|pages|] == pages;
    forall id | id in dir ensures Rank(pages, dir[id]) < MAX_RECORDS {
      RankBelow(pages, dir[id], |pages|);
    }
    assert FirstStarts(pages, dir, |pages|) == dir;
  }

  /** Fewer active pages come before an active page than before any slot after it. */
  lemma RankBelow(pages: Store, slot: nat, k: nat)
    requires slot < k <= |pages| && pages[slot].status == PS_ACTIVE
    ensures Rank(pages, slot) < Rank(pages, k)
  {
    hide Count;
    CountNext(pages, slot);
    RankUpTo(pages, slot + 1, k);
  }

  lemma RankUpTo(pages: Store, slot: nat, k: nat)
    requires slot <= k <= |pages|
    ensures Rank(pages, slot) <= Rank(pages, k)
  {
    CountConcat(pages[..slot], pages[slot..k], PS_ACTIVE);
    assert pages[..k] == pages[..slot] + pages[slot..k];
  }

  /** When no page is lost, a rebuilt index is the directory again. */
  lemma RebuiltIndex(pages: Store, n: nat, dir: Directory)
    requires n >= 1 && |pages| <= Allocator.MAX_PAGES
    requires Runs(pages, n, dir) && Owned(pages, n, dir) && Count(pages, PS_ACTIVE) <= MAX_RECORDS
    ensures var es := Scanned(pages, |pages|);
      Singles(es) && DirectoryOf(es) == dir && |es| == Count(pages, PS_ACTIVE)
  {
    hide Count, Runs, Owned, Starts, Singles, DirectoryOf;
    RunsStart(pages, n, dir);
    ScannedStarts(pages, dir);
  }

  /** UpdateFreePages and RebuildIndex change no record. */
  lemma MaintenanceKeeps(s: State)
    requires Core(s)
    ensures Core(After(s, UpdateFree(s))) && (Full(s) ==> Full(After(s, UpdateFree(s))))
    ensures Data(After(s, UpdateFree(s))) == Data(s)
    ensures Full(s) ==> Full(After(s, Rebuild(s))) && Data(After(s, Rebuild(s))) == Data(s)
  {
    hide Allocator.Refilled, Allocator.Sound, Runs, Records, Count, DirectoryOf, Singles, Owned, RebuildWrites,
      Scanned;
    Allocator.RefilledSound(s.disk.pages);
    ApplyOne(s.disk, PutFree(Allocator.Refilled(s.disk.pages)));
    if Full(s) {
      EntryCount(s);
      RebuildEffect(s.disk);
      RebuiltIndex(s.disk.pages, PagesPer(s), Dir(s.disk));
    }
  }
}
