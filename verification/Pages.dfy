/** The data pages of a database: runs of consecutive pages, the records they hold and how many there are.
    Page numbers start at 2; the page with number n is the element n - 2, its slot. */
module Pages {
  import opened Words
  import opened DbTypes

  type Store = seq<DBPage>

  /** Where each record starts: its id and the slot of its first page. */
  type Directory = map<int32, int>

  // ---- Records as pages ----

  /** The i-th piece of a record, filled up with zeros. */
  function Chunk(data: bytes, i: nat): (c: bytes)
    ensures |c| == DB_PAGE_DATA_SIZE
  {
    seq(DB_PAGE_DATA_SIZE, k requires 0 <= k < DB_PAGE_DATA_SIZE =>
      if i * DB_PAGE_DATA_SIZE + k < |data| then data[i * DB_PAGE_DATA_SIZE + k] else 0)
  }

  function StatusOf(i: nat): byte {
    if i == 0 then PS_ACTIVE else PS_CONTINUATION
  }

  /** The i-th page of a record. */
  function Image(id: int32, data: bytes, i: nat): DBPage {
    Page(id, StatusOf(i), 0, Chunk(data, i))
  }

  function Images(id: int32, data: bytes, n: nat): (r: Store)
    ensures |r| == n
    ensures forall i :: 0 <= i < n ==> r[i] == Image(id, data, i)
  {
    seq(n, i requires 0 <= i < n => Image(id, data, i))
  }

  function Empties(n: nat): (r: Store)
    ensures |r| == n
    ensures forall i :: 0 <= i < n ==> r[i] == EMPTY_PAGE
  {
    seq(n, _ => EMPTY_PAGE)
  }

  /** `n` consecutive pages from `slot` on that carry one record id. */
  predicate IsRun(pages: Store, slot: int, id: int32, n: nat) {
    && 0 <= slot && slot + n <= |pages|
    && forall j :: slot <= j < slot + n ==> pages[j].id == id && pages[j].status == StatusOf(j - slot)
  }

  /** The record read back from the pages from `slot` on. */
  function Content(pages: Store, slot: nat, size: uint16): (data: bytes)
    requires slot + CalculatePagesNeeded(size) <= |pages|
    ensures |data| == size
  {
    seq(size, k requires 0 <= k < size =>
      PieceOf(k, size); pages[slot + k / DB_PAGE_DATA_SIZE].data[k % DB_PAGE_DATA_SIZE])
  }

  lemma PieceOf(k: nat, size: uint16)
    requires k < size
    ensures k / DB_PAGE_DATA_SIZE < CalculatePagesNeeded(size)
  {
  }

  /** Splitting a record into pages loses nothing: assembling them gives the record back. */
  lemma SplitAssemble(pages: Store, slot: nat, id: int32, data: bytes)
    requires 0 < |data| < 0x1_0000
    requires slot + CalculatePagesNeeded(|data|) <= |pages|
    requires forall i :: 0 <= i < CalculatePagesNeeded(|data|) ==> pages[slot + i] == Image(id, data, i)
    ensures Content(pages, slot, |data|) == data
  {
    forall k | 0 <= k < |data| ensures Content(pages, slot, |data|)[k] == data[k] {
      PieceOf(k, |data|);
      assert pages[slot + k / DB_PAGE_DATA_SIZE] == Image(id, data, k / DB_PAGE_DATA_SIZE);
      assert k / DB_PAGE_DATA_SIZE * DB_PAGE_DATA_SIZE + k % DB_PAGE_DATA_SIZE == k;
    }
  }

  /** The pages from `slot` on replaced by `t`. */
  function Overwrite(pages: Store, slot: nat, t: Store): (r: Store)
    requires slot + |t| <= |pages|
    ensures |r| == |pages|
    ensures forall s :: 0 <= s < |pages| ==> r[s] == if slot <= s < slot + |t| then t[s - slot] else pages[s]
  {
    pages[..slot] + t + pages[slot + |t|..]
  }

  // ---- Counting pages by status ----

  function Count(pages: Store, status: byte): nat {
    if pages == [] then 0
    else Count(pages[..|pages| - 1], status) + if pages[|pages| - 1].status == status then 1 else 0
  }

  lemma {:induction false} CountConcat(a: Store, b: Store, status: byte)
    ensures Count(a + b, status) == Count(a, status) + Count(b, status)
    decreases |b|
  {
    if b == [] {
      assert a + b == a;
    } else {
      assert (a + b)[..|a + b| - 1] == a + b[..|b| - 1];
      CountConcat(a, b[..|b| - 1], status);
    }
  }

  lemma CountSplice(pages: Store, slot: nat, t: Store, status: byte)
    requires slot + |t| <= |pages|
    ensures Count(Overwrite(pages, slot, t), status)
         == Count(pages, status) - Count(pages[slot..slot + |t|], status) + Count(t, status)
  {
    hide Count, Overwrite;
    var a, m, b := pages[..slot], pages[slot..slot + |t|], pages[slot + |t|..];
    CountConcat(a + t, b, status);
    CountConcat(a, t, status);
    CountConcat(a + m, b, status);
    CountConcat(a, m, status);
    ThreeParts(pages, slot, t);
  }

  lemma ThreeParts(pages: Store, slot: nat, t: Store)
    requires slot + |t| <= |pages|
    ensures Overwrite(pages, slot, t) == pages[..slot] + t + pages[slot + |t|..]
    ensures pages == pages[..slot] + pages[slot..slot + |t|] + pages[slot + |t|..]
  {
  }

  lemma {:induction false} CountUniform(pages: Store, status: byte, s: byte)
    requires forall i :: 0 <= i < |pages| ==> pages[i].status == s
    ensures Count(pages, status) == if s == status then |pages| else 0
  {
    if pages != [] {
      CountUniform(pages[..|pages| - 1], status, s);
    }
  }

  /** A run has one active page, and the rest are continuations. */
  lemma CountRun(pages: Store, slot: nat, id: int32, n: nat)
    requires n >= 1 && IsRun(pages, slot, id, n)
    ensures Count(pages[slot..slot + n], PS_ACTIVE) == 1
    ensures Count(pages[slot..slot + n], PS_EMPTY) == 0
  {
    var first, rest := [pages[slot]], pages[slot + 1..slot + n];
    assert pages[slot..slot + n] == first + rest;
    CountConcat(first, rest, PS_ACTIVE);
    CountConcat(first, rest, PS_EMPTY);
    CountUniform(rest, PS_ACTIVE, PS_CONTINUATION);
    CountUniform(rest, PS_EMPTY, PS_CONTINUATION);
    CountUniform(first, PS_ACTIVE, PS_ACTIVE);
    CountUniform(first, PS_EMPTY, PS_ACTIVE);
  }

  // ---- The storage invariant ----

  /** Every record of the directory is a run of `n` pages carrying its id. */
  predicate Runs(pages: Store, n: nat, dir: Directory) {
    forall id :: id in dir ==> IsRun(pages, dir[id], id, n)
  }

  /** Every page that is not empty belongs to the run of the record whose id it carries. */
  predicate Owned(pages: Store, n: nat, dir: Directory) {
    forall s :: 0 <= s < |pages| && pages[s].status != PS_EMPTY ==>
      pages[s].id in dir && dir[pages[s].id] <= s < dir[pages[s].id] + n
  }

  predicate AllEmpty(pages: Store, slot: int, n: nat) {
    0 <= slot && slot + n <= |pages| && forall s :: slot <= s < slot + n ==> pages[s].status == PS_EMPTY
  }

  /** The records as a plain map. */
  function Records(pages: Store, size: uint16, dir: Directory): (m: map<int32, bytes>)
    requires Runs(pages, CalculatePagesNeeded(size), dir)
    ensures m.Keys == dir.Keys
  {
    map id | id in dir :: RecordAt(pages, size, dir, id)
  }

  function RecordAt(pages: Store, size: uint16, dir: Directory, id: int32): bytes
    requires Runs(pages, CalculatePagesNeeded(size), dir) && id in dir
  {
    assert IsRun(pages, dir[id], id, CalculatePagesNeeded(size));
    Content(pages, dir[id], size)
  }

  lemma RunPage(pages: Store, slot: int, id: int32, n: nat, s: int)
    requires IsRun(pages, slot, id, n) && slot <= s < slot + n
    ensures pages[s].id == id && pages[s].status == StatusOf(s - slot)
  {
  }

  /** Different records share no page. */
  lemma RunsDisjoint(pages: Store, n: nat, dir: Directory, a: int32, b: int32)
    requires Runs(pages, n, dir) && a in dir && b in dir && a != b
    ensures dir[a] + n <= dir[b] || dir[b] + n <= dir[a] || n == 0
  {
    var x, y := dir[a], dir[b];
    assert IsRun(pages, x, a, n) && IsRun(pages, y, b, n);
    if n > 0 && x < y + n && y < x + n {
      var s := if x < y then y else x;
      RunPage(pages, x, a, n, s);
      RunPage(pages, y, b, n, s);
    }
  }

  /** Pages outside a run do not affect it. */
  lemma RunElsewhere(pages: Store, pages': Store, slot: int, id: int32, size: uint16)
    requires var n := CalculatePagesNeeded(size);
      && IsRun(pages, slot, id, n) && slot + n <= |pages'|
      && forall s :: slot <= s < slot + n ==> pages'[s] == pages[s]
    ensures IsRun(pages', slot, id, CalculatePagesNeeded(size))
    ensures Content(pages', slot, size) == Content(pages, slot, size)
  {
    forall k | 0 <= k < size ensures Content(pages', slot, size)[k] == Content(pages, slot, size)[k] {
      PieceOf(k, size);
    }
  }

  /** Writing pages over a stretch that holds no part of any record of `dir` leaves its records as they are. */
  lemma RecordsElsewhere(pages: Store, pages': Store, size: uint16, dir: Directory, from: int, to: int)
    requires var n := CalculatePagesNeeded(size);
      && Runs(pages, n, dir) && |pages'| >= |pages|
      && (forall s :: 0 <= s < |pages| && !(from <= s < to) ==> pages'[s] == pages[s])
      && (forall id :: id in dir ==> dir[id] + n <= from || to <= dir[id])
    ensures Runs(pages', CalculatePagesNeeded(size), dir)
    ensures Records(pages', size, dir) == Records(pages, size, dir)
  {
    hide IsRun, Content;
    var n := CalculatePagesNeeded(size);
    forall id | id in dir
      ensures IsRun(pages', dir[id], id, n)
      ensures IsRun(pages, dir[id], id, n) && dir[id] >= 0 && dir[id] + n <= |pages|
      ensures Content(pages', dir[id], size) == Content(pages, dir[id], size)
    {
      InRange(pages, dir[id], id, n);
      RunElsewhere(pages, pages', dir[id], id, size);
    }
  }

  lemma InRange(pages: Store, slot: int, id: int32, n: nat)
    requires IsRun(pages, slot, id, n)
    ensures 0 <= slot && slot + n <= |pages|
  {
  }

  /** No record of the directory reaches into a stretch of empty pages. */
  lemma EmptyIsFree(pages: Store, n: nat, dir: Directory, from: int, to: int)
    requires n >= 1 && Runs(pages, n, dir)
    requires forall s :: from <= s < to && 0 <= s < |pages| ==> pages[s].status == PS_EMPTY
    requires from < to
    ensures forall id :: id in dir ==> dir[id] + n <= from || to <= dir[id]
  {
    forall id | id in dir ensures dir[id] + n <= from || to <= dir[id] {
      var x := dir[id];
      assert IsRun(pages, x, id, n);
      if x + n > from && to > x {
        var s := if x < from then from else x;
        RunPage(pages, x, id, n, s);
      }
    }
  }

  // ---- What adding, overwriting and deleting a run do ----

  /** The pages with the record's images written from `slot` on. */
  function WithRun(pages: Store, slot: nat, id: int32, data: bytes, n: nat): (r: Store)
    requires slot + n <= |pages|
    ensures |r| == |pages|
    ensures forall s :: 0 <= s < |pages| ==>
      r[s] == if slot <= s < slot + n then Image(id, data, s - slot) else pages[s]
  {
    Overwrite(pages, slot, Images(id, data, n))
  }

  function WithoutRun(pages: Store, slot: nat, n: nat): (r: Store)
    requires slot + n <= |pages|
    ensures |r| == |pages|
    ensures forall s :: 0 <= s < |pages| ==> r[s] == if slot <= s < slot + n then EMPTY_PAGE else pages[s]
  {
    Overwrite(pages, slot, Empties(n))
  }

  lemma WrittenRun(pages: Store, slot: nat, id: int32, data: bytes, size: uint16)
    requires |data| == size > 0 && slot + CalculatePagesNeeded(size) <= |pages|
    ensures var n := CalculatePagesNeeded(size);
      var pages' := WithRun(pages, slot, id, data, n);
      IsRun(pages', slot, id, n) && Content(pages', slot, size) == data
  {
    hide WithRun;
    SplitAssemble(WithRun(pages, slot, id, data, CalculatePagesNeeded(size)), slot, id, data);
  }

  /** Writing a fresh record over empty pages adds exactly it. */
  lemma AddRun(pages: Store, size: uint16, dir: Directory, slot: nat, id: int32, data: bytes)
    requires |data| == size > 0 && id !in dir
    requires Runs(pages, CalculatePagesNeeded(size), dir) && AllEmpty(pages, slot, CalculatePagesNeeded(size))
    ensures var n := CalculatePagesNeeded(size);
      var pages' := WithRun(pages, slot, id, data, n);
      && Runs(pages', n, dir[id := slot])
      && Records(pages', size, dir[id := slot]) == Records(pages, size, dir)[id := data]
  {
    hide WithRun, Content, IsRun, Records;
    var n := CalculatePagesNeeded(size);
    var pages' := WithRun(pages, slot, id, data, n);
    EmptyIsFree(pages, n, dir, slot, slot + n);
    RecordsElsewhere(pages, pages', size, dir, slot, slot + n);
    WrittenRun(pages, slot, id, data, size);
    RecordsOf(pages', size, dir, dir[id := slot], id, data);
  }

  /** The records after one directory entry was added or kept. */
  lemma RecordsOf(pages: Store, size: uint16, dir: Directory, dir': Directory, id: int32, data: bytes)
    requires var n := CalculatePagesNeeded(size);
      Runs(pages, n, dir) && Runs(pages, n, dir') && id !in dir && id in dir' && dir' == dir[id := dir'[id]]
    requires RecordAt(pages, size, dir', id) == data
    ensures Records(pages, size, dir') == Records(pages, size, dir)[id := data]
  {
    hide Content, IsRun;
    assert forall x :: x in dir ==> RecordAt(pages, size, dir, x) == RecordAt(pages, size, dir', x);
  }

  /** Overwriting a record's run replaces exactly its data. */
  lemma UpdateRun(pages: Store, size: uint16, dir: Directory, id: int32, data: bytes)
    requires |data| == size > 0 && id in dir
    requires Runs(pages, CalculatePagesNeeded(size), dir)
    ensures var n := CalculatePagesNeeded(size);
      IsRun(pages, dir[id], id, n) &&
      var pages' := WithRun(pages, dir[id], id, data, n);
      && Runs(pages', n, dir)
      && Records(pages', size, dir) == Records(pages, size, dir)[id := data]
  {
    hide WithRun, Content, IsRun;
    var n := CalculatePagesNeeded(size);
    InRange(pages, dir[id], id, n);
    var pages' := WithRun(pages, dir[id], id, data, n);
    OthersElsewhere(pages, n, dir, id);
    RecordsElsewhere(pages, pages', size, dir - {id}, dir[id], dir[id] + n);
    WrittenRun(pages, dir[id], id, data, size);
    assert forall x :: x in dir - {id} ==> RecordAt(pages, size, dir - {id}, x) == RecordAt(pages, size, dir, x);
    assert dir == (dir - {id})[id := dir[id]];
    RecordsOf(pages', size, dir - {id}, dir, id, data);
  }

  lemma OthersElsewhere(pages: Store, n: nat, dir: Directory, id: int32)
    requires n >= 1 && Runs(pages, n, dir) && id in dir
    ensures forall x :: x in dir - {id} ==> dir[x] + n <= dir[id] || dir[id] + n <= dir[x]
  {
    forall x | x in dir - {id} ensures dir[x] + n <= dir[id] || dir[id] + n <= dir[x] {
      RunsDisjoint(pages, n, dir, x, id);
    }
  }

  /** Emptying a record's run removes exactly that record. */
  lemma DeleteRun(pages: Store, size: uint16, dir: Directory, id: int32)
    requires size > 0 && id in dir
    requires Runs(pages, CalculatePagesNeeded(size), dir)
    ensures var n := CalculatePagesNeeded(size);
      IsRun(pages, dir[id], id, n) &&
      var pages' := WithoutRun(pages, dir[id], n);
      && AllEmpty(pages', dir[id], n)
      && Runs(pages', n, dir - {id})
      && Records(pages', size, dir - {id}) == Records(pages, size, dir) - {id}
  {
    hide WithoutRun, Content, IsRun;
    var n := CalculatePagesNeeded(size);
    InRange(pages, dir[id], id, n);
    var pages' := WithoutRun(pages, dir[id], n);
    OthersElsewhere(pages, n, dir, id);
    RecordsElsewhere(pages, pages', size, dir - {id}, dir[id], dir[id] + n);
    assert forall x :: x in dir - {id} ==> RecordAt(pages, size, dir - {id}, x) == RecordAt(pages, size, dir, x);
  }

  // ---- The same operations and the pages that belong to no record ----

  lemma AddRunOwned(pages: Store, n: nat, dir: Directory, slot: nat, id: int32, data: bytes)
    requires n >= 1 && Owned(pages, n, dir) && id !in dir && AllEmpty(pages, slot, n)
    ensures Owned(WithRun(pages, slot, id, data, n), n, dir[id := slot])
  {
    hide WithRun;
  }

  lemma UpdateRunOwned(pages: Store, n: nat, dir: Directory, id: int32, data: bytes)
    requires n >= 1 && Owned(pages, n, dir) && id in dir && IsRun(pages, dir[id], id, n)
    ensures Owned(WithRun(pages, dir[id], id, data, n), n, dir)
  {
    hide WithRun;
  }

  lemma DeleteRunOwned(pages: Store, n: nat, dir: Directory, id: int32)
    requires n >= 1 && Owned(pages, n, dir) && id in dir && IsRun(pages, dir[id], id, n)
    ensures Owned(WithoutRun(pages, dir[id], n), n, dir - {id})
  {
    hide WithoutRun;
  }

  lemma CountImages(id: int32, data: bytes, n: nat)
    requires n >= 1
    ensures Count(Images(id, data, n), PS_EMPTY) == 0 && Count(Images(id, data, n), PS_ACTIVE) == 1
  {
    hide Count, Images;
    var t := Images(id, data, n);
    assert IsRun(t, 0, id, n) && t[0..n] == t;
    CountRun(t, 0, id, n);
  }

  lemma AddedCounts(pages: Store, slot: nat, id: int32, data: bytes, n: nat)
    requires n >= 1 && AllEmpty(pages, slot, n)
    ensures var pages' := WithRun(pages, slot, id, data, n);
      && Count(pages', PS_EMPTY) == Count(pages, PS_EMPTY) - n
      && Count(pages', PS_ACTIVE) == Count(pages, PS_ACTIVE) + 1
  {
    hide Count, Images, Overwrite;
    CountSplice(pages, slot, Images(id, data, n), PS_EMPTY);
    CountSplice(pages, slot, Images(id, data, n), PS_ACTIVE);
    CountImages(id, data, n);
    CountUniform(pages[slot..slot + n], PS_EMPTY, PS_EMPTY);
    CountUniform(pages[slot..slot + n], PS_ACTIVE, PS_EMPTY);
  }

  lemma UpdatedCounts(pages: Store, slot: nat, id: int32, data: bytes, n: nat)
    requires n >= 1 && IsRun(pages, slot, id, n)
    ensures var pages' := WithRun(pages, slot, id, data, n);
      && Count(pages', PS_EMPTY) == Count(pages, PS_EMPTY)
      && Count(pages', PS_ACTIVE) == Count(pages, PS_ACTIVE)
  {
    hide Count, Images, Overwrite;
    CountSplice(pages, slot, Images(id, data, n), PS_EMPTY);
    CountSplice(pages, slot, Images(id, data, n), PS_ACTIVE);
    CountImages(id, data, n);
    CountRun(pages, slot, id, n);
  }

  lemma EmptiedCounts(pages: Store, slot: nat, id: int32, n: nat)
    requires n >= 1 && IsRun(pages, slot, id, n)
    ensures var pages' := WithoutRun(pages, slot, n);
      && Count(pages', PS_EMPTY) == Count(pages, PS_EMPTY) + n
      && Count(pages', PS_ACTIVE) == Count(pages, PS_ACTIVE) - 1
  {
    hide Count;
    CountSplice(pages, slot, Empties(n), PS_EMPTY);
    CountSplice(pages, slot, Empties(n), PS_ACTIVE);
    CountUniform(Empties(n), PS_EMPTY, PS_EMPTY);
    CountUniform(Empties(n), PS_ACTIVE, PS_EMPTY);
    CountRun(pages, slot, id, n);
  }

  lemma ExtendedCounts(pages: Store, k: nat)
    ensures Count(pages + Empties(k), PS_EMPTY) == Count(pages, PS_EMPTY) + k
    ensures Count(pages + Empties(k), PS_ACTIVE) == Count(pages, PS_ACTIVE)
  {
    CountConcat(pages, Empties(k), PS_EMPTY);
    CountConcat(pages, Empties(k), PS_ACTIVE);
    CountUniform(Empties(k), PS_EMPTY, PS_EMPTY);
    CountUniform(Empties(k), PS_ACTIVE, PS_EMPTY);
  }

  /** Growing the file by empty pages changes no record. */
  lemma Extend(pages: Store, size: uint16, dir: Directory, k: nat)
    requires Runs(pages, CalculatePagesNeeded(size), dir)
    ensures Runs(pages + Empties(k), CalculatePagesNeeded(size), dir)
    ensures Records(pages + Empties(k), size, dir) == Records(pages, size, dir)
    ensures Owned(pages, CalculatePagesNeeded(size), dir) ==> Owned(pages + Empties(k), CalculatePagesNeeded(size), dir)
  {
    hide Records;
    forall id | id in dir ensures dir[id] + CalculatePagesNeeded(size) <= |pages| {
      InRange(pages, dir[id], id, CalculatePagesNeeded(size));
    }
    RecordsElsewhere(pages, pages + Empties(k), size, dir, |pages|, |pages| + k);
  }
}
