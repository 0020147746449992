/** The free-page list and the allocation of runs of pages. */
module Allocator {
  import opened Words
  import opened DbTypes
  import opened Pages
  import opened Disk
  import Leaf

  /** Page numbers are 32-bit, so a file has at most this many data pages. */
  const MAX_PAGES := 0x7FFF_FFFD

  // ---- The list ----

  predicate Bounded(f: DBFreeList) {
    f.len <= DB_MAX_FREE_PAGES
  }

  /** The pages listed as free. */
  function Listed(f: DBFreeList): (s: seq<int32>)
    requires Bounded(f)
    ensures |s| == f.len
  {
    f.slots[..f.len]
  }

  predicate EmptyPage(pages: Store, p: int) {
    2 <= p < |pages| + 2 && pages[p - 2].status == PS_EMPTY
  }

  /** The listed pages are distinct empty pages of the file. */
  predicate Sound(f: DBFreeList, pages: Store) {
    && Bounded(f)
    && Leaf.Distinct(Listed(f))
    && forall p :: p in Listed(f) ==> EmptyPage(pages, p)
  }

  /** The list with the first occurrence of a page removed and the later entries moved down; the slot that
      falls off the end keeps its old content. */
  function RemoveFirst(f: DBFreeList, p: int): (r: DBFreeList)
    requires Bounded(f)
    ensures Bounded(r) && r.count == f.count
  {
    if p !in Listed(f) then f
    else
      var k := Leaf.PositionOf(Listed(f), p);
      FreeList(f.count, f.len - 1, f.slots[..k] + f.slots[k + 1..f.len] + f.slots[f.len - 1..])
  }

  /** The list without the first `n` pages from `p` on. */
  function RemoveRun(f: DBFreeList, p: int, n: nat): (r: DBFreeList)
    requires Bounded(f)
    ensures Bounded(r) && r.count == f.count
  {
    if n == 0 then f else RemoveFirst(RemoveRun(f, p, n - 1), p + n - 1)
  }

  /** The pages that follow `p` in a run of `n` are all on the list. */
  predicate RunListed(list: seq<int32>, p: int, n: nat) {
    forall q :: p < q < p + n ==> q in list
  }

  /** The first listed page, from position `i` on, that starts a listed run of `n`. */
  function FindRun(list: seq<int32>, n: nat, i: nat): (r: Option<int32>)
    requires i <= |list|
    ensures r.Some? ==> r.value in list && RunListed(list, r.value, n)
    ensures r.None? ==> forall k :: i <= k < |list| ==> !RunListed(list, list[k], n)
    decreases |list| - i
  {
    if i == |list| then None
    else if RunListed(list, list[i], n) then Some(list[i])
    else FindRun(list, n, i + 1)
  }

  /** Taking a run off the list: the last entry for one page, otherwise the first listed run. */
  function Take(f: DBFreeList, n: uint16): (r: Option<(int32, DBFreeList)>)
    requires Bounded(f) && n >= 1
    ensures r.Some? ==> Bounded(r.value.1)
  {
    if f.count < n || f.len == 0 then None
    else if n == 1 then Some((f.slots[f.len - 1], f.(len := f.len - 1, count := f.count - 1)))
    else
      match FindRun(Listed(f), n, 0)
      case None => None
      case Some(p) => Some((p, RemoveRun(f, p, n).(count := f.count - n)))
  }

  // ---- Refilling the list from the pages ----

  /** The numbers of the empty pages among the first `k`, in order. */
  function EmptyNumbers(pages: Store, k: nat): (s: seq<int32>)
    requires k <= |pages| <= MAX_PAGES
  {
    if k == 0 then []
    else if pages[k - 1].status == PS_EMPTY then EmptyNumbers(pages, k - 1) + [k + 1]
    else EmptyNumbers(pages, k - 1)
  }

  /** The list that UpdateFreePages builds: the lowest empty pages, as many as it holds, and their number modulo
      2^16. */
  function Refilled(pages: Store): (f: DBFreeList)
    requires |pages| <= MAX_PAGES
    ensures Bounded(f)
  {
    var e := EmptyNumbers(pages, |pages|);
    var len := if |e| < DB_MAX_FREE_PAGES then |e| else DB_MAX_FREE_PAGES;
    FreeList(|e| % 0x1_0000, len, e[..len] + seq(DB_MAX_FREE_PAGES - len, _ => 0))
  }

  // ---- Allocation ----

  /** The first page of the run, the free list left, how many pages the file grew by, and the writes made. */
  datatype Allocation = Allocation(first: int32, free: DBFreeList, grown: nat, writes: seq<Write>)

  function Append(pages: Store, n: uint16): seq<Write>
    requires |pages| + n <= MAX_PAGES
  {
    PageWrites(|pages| + 2, Empties(n))
  }

  /** AllocatePages: from the list, else from the list refilled when it was empty, else by growing the file. */
  function Allocate(f: DBFreeList, pages: Store, n: uint16): (a: Allocation)
    requires Bounded(f) && n >= 1 && |pages| + n <= MAX_PAGES
    ensures Bounded(a.free)
  {
    match Take(f, n)
    case Some((p, f')) => Allocation(p, f', 0, [PutFree(f')])
    case None =>
      if f.count >= n && f.len == 0 then
        var g := Refilled(pages);
        match Take(g, n)
        case Some((p, g')) => Allocation(p, g', 0, [PutFree(g), PutFree(g')])
        case None => Allocation(|pages| + 2, g, n, [PutFree(g)] + Append(pages, n))
      else
        Allocation(|pages| + 2, f, n, Append(pages, n))
  }

  /** ReleasePages: the count grows by the whole run, the list by its first page when there is room. */
  function Release(f: DBFreeList, first: int32, n: uint16): (r: DBFreeList)
    requires Bounded(f)
    ensures Bounded(r)
  {
    var g := f.(count := (f.count as int + n) % 0x1_0000);
    if f.len < DB_MAX_FREE_PAGES then g.(slots := f.slots[f.len := first], len := f.len + 1) else g
  }

  // ---- What removal does to the list ----

  /** A list without the pages from `p` to `p + n`, in the same order. */
  function Outside(list: seq<int32>, p: int, n: nat): seq<int32> {
    if list == [] then []
    else if p <= list[|list| - 1] < p + n then Outside(list[..|list| - 1], p, n)
    else Outside(list[..|list| - 1], p, n) + [list[|list| - 1]]
  }

  lemma {:induction false} OutsideConcat(a: seq<int32>, b: seq<int32>, p: int, n: nat)
    ensures Outside(a + b, p, n) == Outside(a, p, n) + Outside(b, p, n)
    decreases |b|
  {
    if b == [] {
      assert a + b == a;
    } else {
      assert (a + b)[..|a + b| - 1] == a + b[..|b| - 1];
      OutsideConcat(a, b[..|b| - 1], p, n);
    }
  }

  lemma {:induction false} OutsideMembers(list: seq<int32>, p: int, n: nat)
    ensures forall x :: x in Outside(list, p, n) <==> x in list && !(p <= x < p + n)
    ensures Leaf.Distinct(list) ==> Leaf.Distinct(Outside(list, p, n))
  {
    if list != [] {
      var init, last := list[..|list| - 1], list[|list| - 1];
      OutsideMembers(init, p, n);
      assert list == init + [last];
      if Leaf.Distinct(list) {
        assert last !in init;
      }
    }
  }

  lemma {:induction false} OutsideNothing(list: seq<int32>, p: int)
    ensures Outside(list, p, 0) == list
  {
    if list != [] {
      OutsideNothing(list[..|list| - 1], p);
    }
  }

  lemma {:induction false} OutsideAbsent(list: seq<int32>, p: int, n: nat)
    requires p + n !in list
    ensures Outside(list, p, n + 1) == Outside(list, p, n)
  {
    if list != [] {
      var last := list[|list| - 1];
      assert last in list && forall x :: x in list[..|list| - 1] ==> x in list;
      OutsideAbsent(list[..|list| - 1], p, n);
    }
  }

  lemma {:induction false} OutsideTwice(list: seq<int32>, p: int, n: nat)
    ensures Outside(Outside(list, p, n), p + n, 1) == Outside(list, p, n + 1)
  {
    if list != [] {
      OutsideTwice(list[..|list| - 1], p, n);
      var last := list[|list| - 1];
      if !(p <= last < p + n) {
        OutsideConcat(Outside(list[..|list| - 1], p, n), [last], p + n, 1);
        assert [last][..0] == [];
      }
    }
  }

  lemma OutsideSelf(p: int32)
    ensures Outside([p], p, 1) == []
  {
    assert [p][..0] == [];
  }

  lemma OutsideAbsentOne(list: seq<int32>, p: int)
    requires p !in list
    ensures Outside(list, p, 1) == list
  {
    hide Outside;
    OutsideNothing(list, p);
    OutsideAbsent(list, p, 0);
  }

  lemma DistinctAround(list: seq<int32>, k: nat)
    requires k < |list| && Leaf.Distinct(list)
    ensures list[k] !in list[..k] && list[k] !in list[k + 1..]
  {
  }

  lemma OutsideAt(list: seq<int32>, k: nat)
    requires k < |list| && Leaf.Distinct(list)
    ensures Outside(list, list[k], 1) == list[..k] + list[k + 1..]
  {
    hide Leaf.Distinct, Outside;
    var p, a, b := list[k], list[..k], list[k + 1..];
    DistinctAround(list, k);
    OutsideAbsentOne(a, p);
    OutsideAbsentOne(b, p);
    OutsideSelf(p);
    OutsideConcat(a, [p], p, 1);
    OutsideConcat(a + [p], b, p, 1);
    assert list == a + [p] + b;
    assert a + [] == a;
  }

  /** Removing one page keeps the others in order. */
  lemma RemoveFirstList(f: DBFreeList, p: int)
    requires Bounded(f) && Leaf.Distinct(Listed(f))
    ensures Listed(RemoveFirst(f, p)) == Outside(Listed(f), p, 1)
  {
    hide Outside, Leaf.Distinct;
    var list := Listed(f);
    if p !in list {
      OutsideAbsentOne(list, p);
    } else {
      var k := Leaf.PositionOf(list, p);
      OutsideAt(list, k);
      assert Listed(RemoveFirst(f, p)) == list[..k] + list[k + 1..];
    }
  }

  /** Removing a run keeps the other pages in order. */
  lemma {:induction false} RemoveRunList(f: DBFreeList, p: int, n: nat)
    requires Bounded(f) && Leaf.Distinct(Listed(f))
    ensures Listed(RemoveRun(f, p, n)) == Outside(Listed(f), p, n)
  {
    hide Outside, RemoveFirst, Listed, Leaf.Distinct;
    if n == 0 {
      OutsideNothing(Listed(f), p);
    } else {
      RemoveRunList(f, p, n - 1);
      OutsideMembers(Listed(f), p, n - 1);
      RemoveFirstList(RemoveRun(f, p, n - 1), p + n - 1);
      OutsideTwice(Listed(f), p, n - 1);
    }
  }

  // ---- What refilling gives ----

  lemma NoneDistinct()
    ensures Leaf.Distinct<int32>([])
  {
  }

  lemma DistinctAppend(s: seq<int32>, x: int32)
    requires Leaf.Distinct(s)
    ensures x !in s ==> Leaf.Distinct(s + [x])
  {
  }

  lemma {:induction false} EmptyNumbersAre(pages: Store, k: nat)
    requires k <= |pages| <= MAX_PAGES
    ensures forall p :: p in EmptyNumbers(pages, k) <==> EmptyPage(pages, p) && p < k + 2
    ensures Leaf.Distinct(EmptyNumbers(pages, k))
    ensures |EmptyNumbers(pages, k)| == Count(pages[..k], PS_EMPTY)
  {
    hide Leaf.Distinct;
    NoneDistinct();
    if k > 0 {
      EmptyNumbersAre(pages, k - 1);
      DistinctAppend(EmptyNumbers(pages, k - 1), k + 1);
      assert pages[..k][..k - 1] == pages[..k - 1];
    }
  }

  /** A refilled list is sound, its count exact modulo 2^16, and it is empty only when no page is. */
  lemma RefilledSound(pages: Store)
    requires |pages| <= MAX_PAGES
    ensures Sound(Refilled(pages), pages)
    ensures Refilled(pages).count == Count(pages, PS_EMPTY) % 0x1_0000
    ensures Refilled(pages).len == 0 <==> Count(pages, PS_EMPTY) == 0
  {
    EmptyNumbersAre(pages, |pages|);
    assert pages[..|pages|] == pages;
    var e, f := EmptyNumbers(pages, |pages|), Refilled(pages);
    assert Listed(f) == e[..f.len];
  }

  // ---- What allocation gives ----

  /** A run taken off the list consists of empty pages, leaves the others in order and is no longer listed. */
  lemma TakeSound(f: DBFreeList, pages: Store, n: uint16)
    requires n >= 1 && Sound(f, pages) && Take(f, n).Some?
    ensures var (p, f') := Take(f, n).value;
      && 2 <= p && AllEmpty(pages, p - 2, n)
      && Listed(f') == Outside(Listed(f), p, n)
      && Sound(f', pages) && (forall q :: q in Listed(f') ==> !(p <= q < p + n))
      && f'.count == f.count - n
  {
    hide Outside, RemoveRun, Leaf.Distinct;
    var (p, f') := Take(f, n).value;
    var list := Listed(f);
    if n == 1 {
      OutsideAt(list, f.len - 1);
      assert Listed(f') == list[..f.len - 1] + list[f.len..];
      assert p in list;
    } else {
      RemoveRunList(f, p, n);
    }
    OutsideMembers(list, p, n);
    TakenEmpty(pages, list, p, n);
  }

  lemma TakenEmpty(pages: Store, list: seq<int32>, p: int, n: nat)
    requires n >= 1 && p in list && RunListed(list, p, n) && forall q :: q in list ==> EmptyPage(pages, q)
    ensures p >= 2 && AllEmpty(pages, p - 2, n)
  {
    forall s | p - 2 <= s < p - 2 + n ensures 0 <= s < |pages| && pages[s].status == PS_EMPTY {
      assert s + 2 == p || s + 2 in list;
      assert EmptyPage(pages, s + 2);
    }
    assert EmptyPage(pages, p + n - 1);
  }

  /** Every listed page is a page of the file. */
  predicate ListsFile(f: DBFreeList, size: nat) {
    Bounded(f) && forall p :: p in Listed(f) ==> 2 <= p < size + 2
  }

  lemma SoundListsFile(f: DBFreeList, pages: Store)
    requires Sound(f, pages)
    ensures ListsFile(f, |pages|)
  {
    hide Listed;
  }

  lemma RunInFile(f: DBFreeList, size: nat, p: int32, n: nat)
    requires n >= 1 && ListsFile(f, size) && p in Listed(f) && RunListed(Listed(f), p, n)
    ensures 2 <= p && p - 2 + n <= size
  {
    assert n > 1 ==> p + n - 1 in Listed(f);
  }

  lemma RemoveFirstKeeps(f: DBFreeList, p: int)
    requires Bounded(f)
    ensures forall q :: q in Listed(RemoveFirst(f, p)) ==> q in Listed(f)
  {
    if p in Listed(f) {
      var list, k := Listed(f), Leaf.PositionOf(Listed(f), p);
      assert Listed(RemoveFirst(f, p)) == list[..k] + list[k + 1..];
    }
  }

  lemma {:induction false} RemoveRunKeeps(f: DBFreeList, p: int, n: nat)
    requires Bounded(f)
    ensures forall q :: q in Listed(RemoveRun(f, p, n)) ==> q in Listed(f)
  {
    hide Listed, RemoveFirst;
    if n > 0 {
      RemoveRunKeeps(f, p, n - 1);
      RemoveFirstKeeps(RemoveRun(f, p, n - 1), p + n - 1);
    }
  }

  lemma TakeInFile(f: DBFreeList, size: nat, n: uint16)
    requires n >= 1 && ListsFile(f, size) && Take(f, n).Some?
    ensures var (p, f') := Take(f, n).value; 2 <= p && p - 2 + n <= size && ListsFile(f', size)
  {
    var (p, f') := Take(f, n).value;
    if n == 1 {
      assert p == Listed(f)[f.len - 1] && p in Listed(f);
      assert Listed(f') == Listed(f)[..f.len - 1];
      forall q | q in Listed(f') ensures q in Listed(f) {
      }
    } else {
      RunInFile(f, size, p, n);
      RemoveRunKeeps(f, p, n);
      assert Listed(f') == Listed(RemoveRun(f, p, n));
    }
  }

  /** Whatever pages of the file the list names, the run that an allocation gives lies in the grown file. */
  lemma AllocateInFile(f: DBFreeList, pages: Store, n: uint16)
    requires n >= 1 && |pages| + n <= MAX_PAGES && ListsFile(f, |pages|)
    ensures var a := Allocate(f, pages, n);
      && 2 <= a.first && a.first - 2 + n <= |pages| + a.grown <= MAX_PAGES && a.grown in {0, n as nat}
      && ListsFile(a.free, |pages| + a.grown)
  {
    hide Take, Refilled, Listed;
    if Take(f, n).Some? {
      TakeInFile(f, |pages|, n);
    } else if f.count >= n && f.len == 0 {
      RefilledSound(pages);
      SoundListsFile(Refilled(pages), pages);
      if Take(Refilled(pages), n).Some? {
        TakeInFile(Refilled(pages), |pages|, n);
      }
    }
  }

  /** A run of empty pages of the grown file, none of them listed any more; what the list counts is, modulo 2^16,
      the empty pages other than those of the run. */
  predicate Granted(pages: Store, n: uint16, first: int32, free: DBFreeList, grown: nat) {
    var pages' := pages + Empties(grown);
    && 2 <= first && AllEmpty(pages', first - 2, n)
    && Sound(free, pages') && (forall q :: q in Listed(free) ==> !(first <= q < first + n))
    && free.count == (Count(pages', PS_EMPTY) - n) % 0x1_0000
    && grown in {0, n as nat}
  }

  /** AllocatePages grants a run. */
  lemma AllocateSound(f: DBFreeList, pages: Store, n: uint16)
    requires n >= 1 && |pages| + n <= MAX_PAGES
    requires Sound(f, pages) && f.count == Count(pages, PS_EMPTY) % 0x1_0000
    ensures var a := Allocate(f, pages, n); Granted(pages, n, a.first, a.free, a.grown)
  {
    hide Granted, Count, Take, Refilled, Sound, Append, Empties;
    SoundBounded(f, pages);
    if Take(f, n).Some? {
      TakeGrants(f, pages, n);
    } else if f.count >= n && f.len == 0 {
      RefilledSound(pages);
      if Take(Refilled(pages), n).Some? {
        TakeGrants(Refilled(pages), pages, n);
      } else {
        GrowthGrants(Refilled(pages), pages, n);
      }
    } else {
      GrowthGrants(f, pages, n);
    }
  }

  lemma SoundBounded(f: DBFreeList, pages: Store)
    requires Sound(f, pages)
    ensures Bounded(f)
  {
  }

  lemma TakeGrants(f: DBFreeList, pages: Store, n: uint16)
    requires n >= 1 && Sound(f, pages) && f.count == Count(pages, PS_EMPTY) % 0x1_0000 && Take(f, n).Some?
    ensures Granted(pages, n, Take(f, n).value.0, Take(f, n).value.1, 0)
  {
    assert pages + Empties(0) == pages;
    TakeSound(f, pages, n);
    hide Count, Take, Sound;
  }

  lemma GrowthGrants(f: DBFreeList, pages: Store, n: uint16)
    requires n >= 1 && Sound(f, pages) && f.count == Count(pages, PS_EMPTY) % 0x1_0000 && |pages| + n <= MAX_PAGES
    ensures Granted(pages, n, |pages| + 2, f, n)
  {
    hide Count, Listed, Leaf.Distinct;
    ExtendedCounts(pages, n);
    forall p | p in Listed(f) ensures EmptyPage(pages + Empties(n), p) && p < |pages| + 2 {
      assert EmptyPage(pages, p);
    }
  }

  /** When enough pages are counted free and a run is listed, the run is taken from the list and the file does not
      grow. */
  lemma ListedRunTaken(f: DBFreeList, pages: Store, n: uint16, p: int32)
    requires n >= 1 && |pages| + n <= MAX_PAGES && Sound(f, pages)
    requires f.count >= n && p in Listed(f) && RunListed(Listed(f), p, n)
    ensures var a := Allocate(f, pages, n);
      a.grown == 0 && a.first in Listed(f) && RunListed(Listed(f), a.first, n)
        && Listed(a.free) == Outside(Listed(f), a.first, n)
  {
    var list := Listed(f);
    var k :| 0 <= k < |list| && list[k] == p;
    assert n > 1 ==> FindRun(list, n, 0).Some?;
    assert Take(f, n).Some?;
    TakeSound(f, pages, n);
    if n == 1 {
      assert list[f.len - 1] == f.slots[f.len - 1];
    }
  }

  /** For one page the list is a stack: while pages are counted free and listed, the last one listed is taken. */
  lemma LastListedTaken(f: DBFreeList, pages: Store)
    requires Bounded(f) && f.len > 0 && f.count > 0 && |pages| + 1 <= MAX_PAGES
    ensures var a := Allocate(f, pages, 1);
      && a.first == f.slots[f.len - 1] && a.grown == 0 && a.writes == [PutFree(a.free)]
      && Listed(a.free) == f.slots[..f.len - 1] && a.free.count == f.count - 1
  {
  }

  /** So the page that was released last is the one granted next, and the list is what it was before. */
  lemma LastReleasedFirst(f: DBFreeList, pages: Store, p: int32)
    requires Bounded(f) && f.len < 127 && f.count < 0xFFFF && |pages| + 1 <= MAX_PAGES
    ensures var a := Allocate(Release(f, p, 1), pages, 1);
      a.first == p && a.grown == 0 && Listed(a.free) == Listed(f) && a.free.count == f.count
  {
    LastListedTaken(Release(f, p, 1), pages);
  }

  /** For a run of more pages the first listed page is taken that starts a listed run: no earlier one does. */
  lemma FirstRunTaken(f: DBFreeList, pages: Store, n: uint16, k: nat)
    requires n > 1 && Bounded(f) && f.count >= n && |pages| + n <= MAX_PAGES && k < f.len
    requires forall q :: f.slots[k] <= q < f.slots[k] + n ==> q in f.slots[..f.len]
    requires forall j :: 0 <= j < k ==> exists q :: f.slots[j] <= q < f.slots[j] + n && q !in f.slots[..f.len]
    ensures var a := Allocate(f, pages, n);
      && a.first == f.slots[k] && a.grown == 0 && a.writes == [PutFree(a.free)] && a.free.count == f.count - n
  {
    hide RemoveRun;
    forall j | 0 <= j < k ensures !RunListed(Listed(f), Listed(f)[j], n) {
      var q :| f.slots[j] <= q < f.slots[j] + n && q !in f.slots[..f.len];
      assert Listed(f)[j] == f.slots[j];
    }
    FirstRunFrom(Listed(f), n, 0, k);
  }

  lemma {:induction false} FirstRunFrom(list: seq<int32>, n: nat, i: nat, k: nat)
    requires i <= k < |list| && RunListed(list, list[k], n)
    requires forall j :: i <= j < k ==> !RunListed(list, list[j], n)
    ensures FindRun(list, n, i) == Some(list[k])
    decreases k - i
  {
    hide RunListed;
    if i < k {
      FirstRunFrom(list, n, i + 1, k);
    }
  }

  lemma {:induction false} NoRunFound(list: seq<int32>, n: nat, i: nat)
    requires i <= |list| && forall j :: i <= j < |list| ==> !RunListed(list, list[j], n)
    ensures FindRun(list, n, i) == None
    decreases |list| - i
  {
    hide RunListed;
    if i < |list| {
      NoRunFound(list, n, i + 1);
    }
  }

  /** The file grows, at its end, when fewer pages are counted free than needed, or when pages are listed but none of
      them starts a listed run; the list stays. */
  lemma GrowsOtherwise(f: DBFreeList, pages: Store, n: uint16)
    requires n >= 1 && Bounded(f) && |pages| + n <= MAX_PAGES
    requires f.count < n
      || (n > 1 && f.len > 0
          && forall j :: 0 <= j < f.len ==> exists q :: f.slots[j] <= q < f.slots[j] + n && q !in f.slots[..f.len])
    ensures var a := Allocate(f, pages, n);
      && a.first == |pages| + 2 && a.grown == n && a.free == f && a.writes == Append(pages, n)
  {
    hide RemoveRun;
    if f.count >= n {
      forall j | 0 <= j < f.len ensures !RunListed(Listed(f), Listed(f)[j], n) {
        var q :| f.slots[j] <= q < f.slots[j] + n && q !in f.slots[..f.len];
        assert Listed(f)[j] == f.slots[j];
      }
      NoRunFound(Listed(f), n, 0);
    }
  }

  /** An empty list is filled from the file first when enough pages are counted free; the same page is then granted as
      from the filled list, unless that cannot serve the run and the file grows. */
  lemma RefillsWhenEmpty(f: DBFreeList, pages: Store, n: uint16)
    requires n >= 1 && Bounded(f) && f.len == 0 && f.count >= n && |pages| + n <= MAX_PAGES
    ensures var a, g := Allocate(f, pages, n), Refilled(pages);
      && a.writes != [] && a.writes[0] == PutFree(g)
      && (g.len > 0 ==> a == Allocate(g, pages, n).(writes := [PutFree(g)] + Allocate(g, pages, n).writes))
      && (g.len == 0 ==> a.first == |pages| + 2 && a.grown == n && a.free == g)
  {
    hide Refilled, RemoveRun;
  }

  /** A refilled list has the lowest empty pages, in ascending order: all of them, or 127. */
  lemma RefilledLowest(pages: Store)
    requires |pages| <= MAX_PAGES
    ensures var list := Listed(Refilled(pages));
      && (forall i, j :: 0 <= i < j < |list| ==> list[i] < list[j])
      && (forall s :: 0 <= s < |pages| && pages[s].status == 0 && s + 2 !in list ==>
            |list| == 127 && forall p :: p in list ==> p < s + 2)
  {
    var e, list := EmptyNumbers(pages, |pages|), Listed(Refilled(pages));
    EmptyNumbersAre(pages, |pages|);
    EmptyNumbersAscend(pages, |pages|);
    assert list == e[..|list|];
    forall s | 0 <= s < |pages| && pages[s].status == 0 && s + 2 !in list
      ensures |list| == 127 && forall p :: p in list ==> p < s + 2
    {
      assert s + 2 in e;
      var k :| 0 <= k < |e| && e[k] == s + 2;
      assert k >= |list|;
    }
  }

  lemma {:induction false} EmptyNumbersAscend(pages: Store, k: nat)
    requires k <= |pages| <= MAX_PAGES
    ensures forall i, j :: 0 <= i < j < |EmptyNumbers(pages, k)| ==>
      EmptyNumbers(pages, k)[i] < EmptyNumbers(pages, k)[j] < k + 2
    ensures forall i :: 0 <= i < |EmptyNumbers(pages, k)| ==> EmptyNumbers(pages, k)[i] < k + 2
  {
    if k > 0 {
      EmptyNumbersAscend(pages, k - 1);
    }
  }

  /** On disk an allocation grows the file by empty pages and replaces the free list. */
  lemma AllocateWrites(f: DBFreeList, d: Disk, n: uint16)
    requires Bounded(f) && n >= 1 && |d.pages| + n <= MAX_PAGES && d.free == f
    ensures var a := Allocate(f, d.pages, n);
      ApplyAll(d, a.writes) == d.(pages := d.pages + Empties(a.grown), free := a.free)
  {
    hide Take, Refilled, PageWrites;
    assert d.pages + Empties(0) == d.pages;
    if Take(f, n).Some? {
      ApplyOne(d, PutFree(Take(f, n).value.1));
    } else if f.count >= n && f.len == 0 {
      var g := Refilled(d.pages);
      ApplyOne(d, PutFree(g));
      var d' := Apply(d, PutFree(g));
      if Take(g, n).Some? {
        ApplyOne(d', PutFree(Take(g, n).value.1));
        ApplyConcat(d, [PutFree(g)], [PutFree(Take(g, n).value.1)]);
        assert [PutFree(g)] + [PutFree(Take(g, n).value.1)] == [PutFree(g), PutFree(Take(g, n).value.1)];
      } else {
        ApplyConcat(d, [PutFree(g)], Append(d.pages, n));
        AppendWrites(d', n);
      }
    } else {
      AppendWrites(d, n);
    }
  }

  lemma AppendWrites(d: Disk, n: uint16)
    requires |d.pages| + n <= MAX_PAGES
    ensures ApplyAll(d, Append(d.pages, n)) == d.(pages := d.pages + Empties(n))
  {
    var ws := Append(d.pages, n);
    PagesAppended(d, |d.pages| + 2, Empties(n), n);
    assert ws[..n] == ws && Empties(n)[..n] == Empties(n);
  }

  /** Releasing an emptied run keeps the list sound and counts all its pages. */
  lemma ReleaseSound(f: DBFreeList, pages: Store, pages': Store, first: int32, n: uint16)
    requires n >= 1 && Sound(f, pages) && f.count == Count(pages, PS_EMPTY) % 0x1_0000
    requires |pages'| == |pages| && Count(pages', PS_EMPTY) == Count(pages, PS_EMPTY) + n
    requires forall q :: EmptyPage(pages, q) ==> EmptyPage(pages', q)
    requires EmptyPage(pages', first) && !EmptyPage(pages, first)
    ensures Sound(Release(f, first, n), pages')
    ensures Release(f, first, n).count == Count(pages', PS_EMPTY) % 0x1_0000
  {
    hide Count, EmptyPage, Leaf.Distinct, Listed;
    DistinctAppend(Listed(f), first);
    ReleasedList(f, first, n);
    CountedOn(Count(pages, PS_EMPTY), n);
  }

  lemma ReleasedList(f: DBFreeList, first: int32, n: uint16)
    requires Bounded(f)
    ensures Listed(Release(f, first, n)) == if f.len < DB_MAX_FREE_PAGES then Listed(f) + [first] else Listed(f)
    ensures Release(f, first, n).count == (f.count as int + n) % 0x1_0000
  {
  }

  lemma CountedOn(c: nat, n: nat)
    ensures (c % 0x1_0000 + n) % 0x1_0000 == (c + n) % 0x1_0000
  {
  }
}
