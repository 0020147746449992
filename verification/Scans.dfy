/** The scan that enters the active pages of a file in an index, over pages that may hold anything. */
module Scans {
  import opened Words
  import opened DbTypes
  import opened Pages
  import opened Directories
  import opened Maintenance
  import Allocator
  import BTree
  import Leaf

  // ---- Which ids have room ----

  /** How many values each key of a leaf has, and the bytes that the entries take. */
  datatype Load = Load(counts: map<int32, nat>, size: nat)

  const SPACE := Leaf.PAGE_SIZE - Leaf.HEAD_SIZE

  predicate Takes(l: Load, id: int32) {
    if id in l.counts then l.counts[id] < Leaf.MAX_VALUES && l.size + 4 <= SPACE else l.size + 14 <= SPACE
  }

  /** One more value for an id, if there is room for it. */
  function Loaded(l: Load, id: int32): Load {
    if !Takes(l, id) then l
    else if id in l.counts then Load(l.counts[id := l.counts[id] + 1], l.size + 4)
    else Load(l.counts[id := 1], l.size + 14)
  }

  /** What a new leaf holds after the ids were entered one after the other, each with a new value. */
  function LoadOf(ids: seq<int32>): Load {
    if ids == [] then Load(map[], 0) else Loaded(LoadOf(ids[..|ids| - 1]), ids[|ids| - 1])
  }

  /** How many of the ids were taken. */
  function Taken(ids: seq<int32>): nat {
    if ids == [] then 0
    else
      var init := ids[..|ids| - 1];
      Taken(init) + if Takes(LoadOf(init), ids[|ids| - 1]) then 1 else 0
  }

  lemma {:induction false} LoadBounds(ids: seq<int32>)
    ensures var l := LoadOf(ids);
      && l.size <= SPACE && l.size <= 14 * |ids| && 14 * |l.counts| <= l.size
      && forall id :: id in l.counts ==> 1 <= l.counts[id] <= Leaf.MAX_VALUES
  {
    if ids != [] {
      var init, id := ids[..|ids| - 1], ids[|ids| - 1];
      LoadBounds(init);
      assert LoadOf(init).counts[id := 1].Keys == LoadOf(init).counts.Keys + {id};
    }
  }

  /** Thirty-six ids always have room, the same or not. */
  lemma {:induction false} AllTaken(ids: seq<int32>)
    requires |ids| <= MAX_RECORDS
    ensures Taken(ids) == |ids|
    ensures forall id :: id in LoadOf(ids).counts <==> id in ids
    ensures forall id :: id in ids ==> LoadOf(ids).counts[id] == multiset(ids)[id]
  {
    if ids != [] {
      var init, id := ids[..|ids| - 1], ids[|ids| - 1];
      AllTaken(init);
      LoadBounds(init);
      assert ids == init + [id];
      FewOf(init, id);
    }
  }

  lemma FewOf(ids: seq<int32>, id: int32)
    ensures multiset(ids)[id] <= |ids|
  {
    assert |multiset(ids)| == |ids|;
    assert multiset(ids)[id := 0] <= multiset(ids);
    assert |multiset(ids)| == |multiset(ids)[id := 0]| + multiset(ids)[id];
  }

  /** An id becomes a key exactly when there are fourteen bytes for it where it first occurs. */
  lemma {:induction false} KeyWhenRoom(ids: seq<int32>, j: nat)
    requires j < |ids| && ids[j] !in ids[..j]
    ensures ids[j] in LoadOf(ids).counts <==> LoadOf(ids[..j]).size + 14 <= SPACE
  {
    var id, init := ids[j], ids[..|ids| - 1];
    OnlyIds(ids[..j]);
    LoadGrows(ids, j);
    if j == |ids| - 1 {
    } else {
      KeyWhenRoom(init, j);
      assert init[..j] == ids[..j];
      LoadGrows(init, j);
    }
  }

  lemma {:induction false} OnlyIds(ids: seq<int32>)
    ensures forall id :: id in LoadOf(ids).counts ==> id in ids
  {
    if ids != [] {
      OnlyIds(ids[..|ids| - 1]);
    }
  }

  lemma {:induction false} LoadGrows(ids: seq<int32>, j: nat)
    requires j <= |ids|
    ensures LoadOf(ids[..j]).size <= LoadOf(ids).size
  {
    if j < |ids| {
      LoadGrows(ids[..|ids| - 1], j);
      assert ids[..|ids| - 1][..j] == ids[..j];
    } else {
      assert ids[..j] == ids;
    }
  }

  // ---- The active pages of a file ----

  /** The ids of the active pages, in page order. */
  function ActiveIds(pages: Store): seq<int32> {
    if pages == [] then []
    else
      var init, last := pages[..|pages| - 1], pages[|pages| - 1];
      ActiveIds(init) + if last.status == PS_ACTIVE then [last.id] else []
  }

  /** The numbers of an id's active pages, in ascending order. */
  function ActivePages(pages: Store, id: int32): (ps: seq<int32>)
    requires |pages| <= Allocator.MAX_PAGES
    ensures forall p :: p in ps ==>
      2 <= p < |pages| + 2 && pages[p - 2].status == PS_ACTIVE && pages[p - 2].id == id
  {
    if pages == [] then []
    else
      var init, last := pages[..|pages| - 1], pages[|pages| - 1];
      ActivePages(init, id) + if last.status == PS_ACTIVE && last.id == id then [|pages| + 1] else []
  }

  lemma {:induction false} ActivePagesAscend(pages: Store, id: int32)
    requires |pages| <= Allocator.MAX_PAGES
    ensures var ps := ActivePages(pages, id);
      && (forall i, j :: 0 <= i < j < |ps| ==> ps[i] < ps[j])
      && forall s :: 0 <= s < |pages| && pages[s].status == PS_ACTIVE && pages[s].id == id ==> s + 2 in ps
  {
    if pages != [] {
      var init, ps, before := pages[..|pages| - 1], ActivePages(pages, id), ActivePages(pages[..|pages| - 1], id);
      ActivePagesAscend(init, id);
      forall i, j | 0 <= i < j < |ps| ensures ps[i] < ps[j] {
        assert before[i] in before;
      }
      forall s | 0 <= s < |pages| && pages[s].status == PS_ACTIVE && pages[s].id == id ensures s + 2 in ps {
        if s < |pages| - 1 {
          assert init[s] == pages[s];
        } else {
          assert ps[|ps| - 1] == s + 2;
        }
      }
    }
  }

  lemma {:induction false} ActiveIdsCount(pages: Store)
    ensures |ActiveIds(pages)| == Count(pages, PS_ACTIVE)
  {
    if pages != [] {
      ActiveIdsCount(pages[..|pages| - 1]);
    }
  }

  lemma {:induction false} ActiveIdsHave(pages: Store, id: int32)
    requires |pages| <= Allocator.MAX_PAGES
    ensures id in ActiveIds(pages) <==> ActivePages(pages, id) != []
    ensures multiset(ActiveIds(pages))[id] == |ActivePages(pages, id)|
  {
    if pages != [] {
      ActiveIdsHave(pages[..|pages| - 1], id);
    }
  }

  lemma {:induction false} ActiveIdsConcat(a: Store, b: Store)
    ensures ActiveIds(a + b) == ActiveIds(a) + ActiveIds(b)
    decreases |b|
  {
    if b == [] {
      assert a + b == a;
    } else {
      assert (a + b)[..|a + b| - 1] == a + b[..|b| - 1];
      ActiveIdsConcat(a, b[..|b| - 1]);
    }
  }

  /** The slot of an id's lowest active page, if the scan finds room for it. */
  function ScanStart(pages: Store, id: int32): (r: Option<int>)
    requires |pages| <= Allocator.MAX_PAGES
    ensures r.Some? ==> 0 <= r.value < |pages| && pages[r.value].status == PS_ACTIVE && pages[r.value].id == id
  {
    var ps := ActivePages(pages, id);
    if id in LoadOf(ActiveIds(pages)).counts && ps != [] then
      assert ps[0] in ps;
      Some((ps[0] as int) - 2)
    else None
  }

  /** The start found for an id is its lowest active page. */
  lemma StartIsLowest(pages: Store, id: int32, s: nat)
    requires |pages| <= Allocator.MAX_PAGES && ScanStart(pages, id).Some?
    requires s < |pages| && pages[s].status == PS_ACTIVE && pages[s].id == id
    ensures ScanStart(pages, id).value <= s
  {
    hide LoadOf, ActivePages;
    ActivePagesAscend(pages, id);
  }

  // ---- What the scan finds ----

  lemma InsertedSize(es: seq<Leaf.Entry>, key: int32, value: int32)
    requires Leaf.Proper(es) && Leaf.Fits(es) && |es| <= Leaf.MAX_KEYS
    requires Leaf.Inserted(es, key, value).Some? && value !in Leaf.Values(Leaf.ToMap(es), key)
    ensures Leaf.EntriesSize(Leaf.Inserted(es, key, value).value)
         == Leaf.EntriesSize(es) + if key in Leaf.ToMap(es) then 4 else 14
  {
    hide Leaf.ToMap, Leaf.InsertAt, Leaf.PositionFrom, Leaf.EntriesSize;
    Leaf.SearchFinds(es, key, 0);
    var i := Leaf.FindIndex(es, key);
    if i >= 0 {
      Leaf.SizeOfUpdate(es, i, es[i].(values := es[i].values + [value]));
    } else {
      Leaf.SizeInserted(es, Leaf.PositionFrom(es, key, 0), Leaf.Entry(key, [value], 0));
    }
  }

  function CountOf(l: Load, id: int32): nat {
    if id in l.counts then l.counts[id] else 0
  }

  /** The map has of each id's active pages the lowest ones in ascending order: all of them unless there is no room for
      another. */
  predicate Lists(m: map<int32, seq<int32>>, l: Load, pages: Store)
    requires |pages| <= Allocator.MAX_PAGES
  {
    && m.Keys == l.counts.Keys
    && (forall id :: id in l.counts ==>
          1 <= l.counts[id] <= |ActivePages(pages, id)| && m[id] == ActivePages(pages, id)[..l.counts[id]])
    && forall id :: CountOf(l, id) < |ActivePages(pages, id)| ==> !Takes(l, id)
  }

  predicate Holds(es: seq<Leaf.Entry>, l: Load, pages: Store) {
    && |pages| <= Allocator.MAX_PAGES && |es| <= Leaf.MAX_KEYS
    && Leaf.Proper(es) && Leaf.Fits(es) && Leaf.EntriesSize(es) == l.size
    && Lists(Leaf.ToMap(es), l, pages)
  }

  /** What one more page adds. */
  lemma OneMorePage(pages: Store, k: nat)
    requires k < |pages| <= Allocator.MAX_PAGES
    ensures var p := pages[k];
      && ActiveIds(pages[..k + 1]) == ActiveIds(pages[..k]) + (if p.status == PS_ACTIVE then [p.id] else [])
      && forall id :: ActivePages(pages[..k + 1], id)
                      == ActivePages(pages[..k], id) + if p.status == PS_ACTIVE && p.id == id then [k + 2] else []
  {
    assert pages[..k + 1][..k] == pages[..k];
  }

  lemma OneMoreId(ids: seq<int32>, id: int32)
    ensures LoadOf(ids + [id]) == Loaded(LoadOf(ids), id)
    ensures Taken(ids + [id]) == Taken(ids) + if Takes(LoadOf(ids), id) then 1 else 0
  {
    assert (ids + [id])[..|ids|] == ids;
  }

  lemma NothingScanned(pages: Store)
    ensures ActiveIds(pages[..0]) == [] && Holds([], LoadOf([]), pages[..0]) && Taken([]) == 0
  {
  }

  lemma ScannedNext(pages: Store, k: nat)
    requires k <= |pages| <= Allocator.MAX_PAGES
    ensures Scanned(pages, 0) == []
    ensures k < |pages| ==>
      && |Scanned(pages, k)| <= 60
      && var inserted := Leaf.Inserted(Scanned(pages, k), pages[k].id, k + 2);
      Scanned(pages, k + 1) ==
        if pages[k].status != PS_ACTIVE || inserted.None? then Scanned(pages, k) else inserted.value
  {
    hide Leaf.Inserted;
  }

  lemma SameHolds(es: seq<Leaf.Entry>, l: Load, pages: Store, k: nat)
    requires k < |pages| <= Allocator.MAX_PAGES && pages[k].status != PS_ACTIVE && Holds(es, l, pages[..k])
    ensures Holds(es, l, pages[..k + 1])
  {
    hide ActivePages, Leaf.ToMap, Leaf.EntriesSize, Leaf.Proper, Takes;
    OneMorePage(pages, k);
  }

  /** What the leaf does with one more active page. */
  lemma EnterLeaf(es: seq<Leaf.Entry>, l: Load, pages: Store, k: nat)
    requires k < |pages| <= Allocator.MAX_PAGES && Holds(es, l, pages[..k])
    ensures Leaf.Sorted(es)
    ensures var id, r := pages[k].id, Leaf.Inserted(es, pages[k].id, k + 2);
      && (r.Some? <==> Takes(l, id))
      && (r.Some? ==>
            && |r.value| <= Leaf.MAX_KEYS && Leaf.Sorted(r.value) && Leaf.Proper(r.value) && Leaf.Fits(r.value)
            && Leaf.EntriesSize(r.value) == Loaded(l, id).size
            && Leaf.ToMap(r.value) == Leaf.ToMap(es)[id := ActivePages(pages[..k], id) + [k + 2]])
  {
    hide ActivePages, Leaf.ToMap, Leaf.EntriesSize, Leaf.Inserted;
    var id, ps := pages[k].id, ActivePages(pages[..k], pages[k].id);
    assert k + 2 !in ps;
    assert k + 2 !in Leaf.Values(Leaf.ToMap(es), id);
    Leaf.InsertSucceeds(es, id, k + 2);
    Leaf.InsertRefines(es, id, k + 2);
    if Takes(l, id) {
      InsertedSize(es, id, k + 2);
      assert CountOf(l, id) == |ps|;
      assert ps[..|ps|] == ps;
    }
  }

  /** One more active page. */
  lemma EnterPage(es: seq<Leaf.Entry>, l: Load, pages: Store, k: nat)
    requires k < |pages| <= Allocator.MAX_PAGES && pages[k].status == PS_ACTIVE && Holds(es, l, pages[..k])
    ensures var inserted := Leaf.Inserted(es, pages[k].id, k + 2);
      && (inserted.Some? <==> Takes(l, pages[k].id))
      && Holds(if inserted.Some? then inserted.value else es, Loaded(l, pages[k].id), pages[..k + 1])
  {
    hide *;
    HoldsParts(es, l, pages[..k]);
    OneMorePage(pages, k);
    EnterLeaf(es, l, pages, k);
    EnterMap(Leaf.ToMap(es), l, pages, k);
    LoadedIs(l, pages[k].id);
    var inserted := Leaf.Inserted(es, pages[k].id, k + 2);
    HoldsFrom(if inserted.Some? then inserted.value else es, Loaded(l, pages[k].id), pages[..k + 1]);
  }

  lemma LoadedIs(l: Load, id: int32)
    ensures !Takes(l, id) ==> Loaded(l, id) == l
  {
    hide Takes;
  }

  lemma HoldsParts(es: seq<Leaf.Entry>, l: Load, pages: Store)
    requires Holds(es, l, pages)
    ensures |pages| <= Allocator.MAX_PAGES == 0x7FFF_FFFD && |es| <= Leaf.MAX_KEYS && Leaf.Sorted(es)
    ensures Leaf.Proper(es) && Leaf.Fits(es) && Leaf.EntriesSize(es) == l.size && Lists(Leaf.ToMap(es), l, pages)
  {
    hide Lists, Leaf.EntriesSize, Leaf.Distinct, Leaf.ToMap;
  }

  lemma HoldsFrom(es: seq<Leaf.Entry>, l: Load, pages: Store)
    requires |pages| <= Allocator.MAX_PAGES && |es| <= Leaf.MAX_KEYS && Leaf.Sorted(es)
    requires Leaf.Proper(es) && Leaf.Fits(es) && Leaf.EntriesSize(es) == l.size && Lists(Leaf.ToMap(es), l, pages)
    ensures Holds(es, l, pages)
  {
    hide Lists, Leaf.EntriesSize, Leaf.Distinct, Leaf.ToMap;
  }

  lemma EnterMap(m: map<int32, seq<int32>>, l: Load, pages: Store, k: nat)
    requires k < |pages| <= Allocator.MAX_PAGES && pages[k].status == PS_ACTIVE && Lists(m, l, pages[..k])
    ensures var id := pages[k].id;
      Lists(if Takes(l, id) then m[id := ActivePages(pages[..k], id) + [k + 2]] else m, Loaded(l, id), pages[..k + 1])
  {
    hide ActivePages, Takes;
    OneMorePage(pages, k);
    var id := pages[k].id;
    if Takes(l, id) {
      EnterTaken(m, l, pages, k);
    } else {
      LoadedIs(l, id);
    }
  }

  lemma EnterTaken(m: map<int32, seq<int32>>, l: Load, pages: Store, k: nat)
    requires k < |pages| <= Allocator.MAX_PAGES && pages[k].status == PS_ACTIVE && Lists(m, l, pages[..k])
    requires Takes(l, pages[k].id)
    ensures var id := pages[k].id;
      Lists(m[id := ActivePages(pages[..k], id) + [k + 2]], Loaded(l, id), pages[..k + 1])
  {
    hide ActivePages, Takes;
    OneMorePage(pages, k);
    var id, ps := pages[k].id, ActivePages(pages[..k], pages[k].id);
    var l', m' := Loaded(l, id), m[id := ps + [k + 2]];
    assert CountOf(l, id) == |ps|;
    assert (ps + [k + 2])[..|ps| + 1] == ps + [k + 2];
    forall x | CountOf(l', x) < |ActivePages(pages[..k + 1], x)| ensures !Takes(l', x) {
      assert x != id && CountOf(l, x) == CountOf(l', x);
      StillFull(l, id, x);
    }
  }

  /** An id without room goes on without room. */
  lemma StillFull(l: Load, id: int32, x: int32)
    requires x != id && !Takes(l, x)
    ensures !Takes(Loaded(l, id), x)
  {
  }

  /** Over pages that may hold anything: after the scan of the first `k` pages the index gives for each id its active
      pages in ascending order, as many of them as had room. */
  lemma {:induction false} ScanKeeps(pages: Store, k: nat)
    requires k <= |pages| <= Allocator.MAX_PAGES
    ensures Holds(Scanned(pages, k), LoadOf(ActiveIds(pages[..k])), pages[..k])
  {
    hide *;
    if k == 0 {
      NothingScanned(pages);
      ScannedNext(pages, 0);
    } else {
      ScanKeeps(pages, k - 1);
      OneMorePage(pages, k - 1);
      ScannedNext(pages, k - 1);
      if pages[k - 1].status == PS_ACTIVE {
        OneMoreId(ActiveIds(pages[..k - 1]), pages[k - 1].id);
        EnterPage(Scanned(pages, k - 1), LoadOf(ActiveIds(pages[..k - 1])), pages, k - 1);
      } else {
        assert ActiveIds(pages[..k]) == ActiveIds(pages[..k - 1]);
        SameHolds(Scanned(pages, k - 1), LoadOf(ActiveIds(pages[..k - 1])), pages, k - 1);
      }
    }
  }

  lemma {:induction false} ScanSize(pages: Store, k: nat)
    requires k <= |pages| <= Allocator.MAX_PAGES
    ensures |Scanned(pages, k)| <= Count(pages[..k], PS_ACTIVE)
  {
    hide Scanned, Leaf.Inserted, Count;
    ScannedNext(pages, if k == 0 then 0 else k - 1);
    if k > 0 {
      ScanSize(pages, k - 1);
      CountNext(pages, k - 1);
      if pages[k - 1].status == PS_ACTIVE && Leaf.Inserted(Scanned(pages, k - 1), pages[k - 1].id, k + 1).Some? {
        Leaf.InsertedGrowth(Scanned(pages, k - 1), pages[k - 1].id, k + 1);
      }
    }
  }

  /** So the index gives first for an id its lowest active page, if there was room for it. */
  lemma ScanFirst(pages: Store, k: nat, id: int32)
    requires k <= |pages| <= Allocator.MAX_PAGES
    ensures var es := Scanned(pages, k);
      && Leaf.Proper(es) && Leaf.Fits(es) && |es| <= Leaf.MAX_KEYS
      && BTree.FirstValue(BTree.Ready(LeafOf(es)), id)
         == match ScanStart(pages[..k], id) case None => None case Some(slot) => Some((slot + 2) as int32)
  {
    hide ActivePages, LoadOf, ActiveIds, Scanned, Leaf.ToMap, Leaf.EntriesSize, Leaf.Found;
    ScanKeeps(pages, k);
    var es := Scanned(pages, k);
    Leaf.FoundIsLookup(es, id);
  }

  /** The scan writes the index once for each id that is taken. */
  lemma {:induction false} ScanCount(pages: Store, k: nat)
    requires k <= |pages| <= Allocator.MAX_PAGES
    ensures |ScanWrites(pages, k)| == Taken(ActiveIds(pages[..k]))
  {
    hide *;
    if k == 0 {
      NothingScanned(pages);
      ScanWritesNext(pages, 0);
    } else {
      ScanCount(pages, k - 1);
      OneMorePage(pages, k - 1);
      ScannedNext(pages, k - 1);
      ScanWritesNext(pages, k - 1);
      if pages[k - 1].status == PS_ACTIVE {
        ScanKeeps(pages, k - 1);
        OneMoreId(ActiveIds(pages[..k - 1]), pages[k - 1].id);
        EnterLeaf(Scanned(pages, k - 1), LoadOf(ActiveIds(pages[..k - 1])), pages, k - 1);
        HoldsParts(Scanned(pages, k - 1), LoadOf(ActiveIds(pages[..k - 1])), pages[..k - 1]);
        LargerLeaf(LoadOf(ActiveIds(pages[..k - 1])), pages[k - 1].id);
      } else {
        assert ActiveIds(pages[..k]) == ActiveIds(pages[..k - 1]);
      }
    }
  }

  lemma LargerLeaf(l: Load, id: int32)
    ensures Takes(l, id) ==> Loaded(l, id).size != l.size
  {
  }

  lemma ScanWritesNext(pages: Store, k: nat)
    requires k <= |pages| <= Allocator.MAX_PAGES
    ensures ScanWrites(pages, 0) == []
    ensures k < |pages| ==>
      |ScanWrites(pages, k + 1)| == |ScanWrites(pages, k)| + if Scanned(pages, k + 1) == Scanned(pages, k) then 0 else 1
  {
    hide Scanned, LeafOf;
  }

  /** While at most thirty-six pages are active every id that has one is a key. */
  lemma FewScanned(pages: Store, id: int32)
    requires |pages| <= Allocator.MAX_PAGES && Count(pages, PS_ACTIVE) <= MAX_RECORDS
    ensures ScanStart(pages, id)
         == if ActivePages(pages, id) == [] then None else Some((ActivePages(pages, id)[0] as int) - 2)
    ensures Taken(ActiveIds(pages)) == Count(pages, PS_ACTIVE)
  {
    hide LoadOf, ActivePages, ActiveIds, Count, Taken;
    ActiveIdsCount(pages);
    ActiveIdsHave(pages, id);
    AllTaken(ActiveIds(pages));
  }

  /** When no two active pages have one id the scan starts each id at its page, if thirty-six or more do not come before
      it. */
  lemma StartsScan(pages: Store, dir: Directory, id: int32)
    requires |pages| <= Allocator.MAX_PAGES && Starts(pages, dir)
    ensures ScanStart(pages, id)
         == if id in dir && Rank(pages, dir[id]) < MAX_RECORDS then Some(dir[id]) else None
  {
    hide ScanStart, Scanned, Rank, Starts, DirectoryOf, Singles, Leaf.Found;
    ScanFirst(pages, |pages|, id);
    assert pages[..|pages|] == pages;
    ScanKeepsFirst(pages, dir, |pages|);
    StartsInside(pages, dir);
    Lookup(Scanned(pages, |pages|), id);
  }

  lemma StartsInside(pages: Store, dir: Directory)
    requires Starts(pages, dir)
    ensures forall id :: id in dir ==> 0 <= dir[id] < |pages| && pages[dir[id]].status == PS_ACTIVE
    ensures forall id :: id in dir ==> pages[dir[id]].id == id
  {
  }

  lemma LowestIs(pages: Store, id: int32, s: nat)
    requires |pages| <= Allocator.MAX_PAGES && s < |pages| && pages[s].status == PS_ACTIVE && pages[s].id == id
    requires forall t :: 0 <= t < s ==> pages[t].status != PS_ACTIVE || pages[t].id != id
    ensures ActivePages(pages, id) != [] && ActivePages(pages, id)[0] == s + 2
  {
    hide ActivePages;
    ActivePagesAscend(pages, id);
    var ps := ActivePages(pages, id);
    assert s + 2 in ps && ps[0] in ps;
  }

  lemma NoLower(pages: Store, id: int32, s: nat)
    requires |pages| <= Allocator.MAX_PAGES && s < |pages| && pages[s].status == PS_ACTIVE && pages[s].id == id
    ensures ActivePages(pages, id) != [] && ActivePages(pages, id)[0] <= s + 2
  {
    hide ActivePages;
    ActivePagesAscend(pages, id);
    assert s + 2 in ActivePages(pages, id);
  }
}
