/** The leaf of an index: sorted keys, each with its values in insertion order, and its variable-length page
    encoding. */
module Leaf {
  import opened Words

  const PAGE_SIZE := 512
  const MAX_KEYS := 60
  const MAX_VALUES := 60
  const HEAD_SIZE := 7

  datatype EntryShape = Entry(key: int32, values: seq<int32>, overflow: int32)
  type Entry = e: EntryShape | |e.values| <= 60 witness Entry(0, [], 0)

  datatype LeafShape = Leaf(pageType: byte, nextLeaf: int32, entries: seq<Entry>)
  type Leaf = l: LeafShape | |l.entries| <= 60 witness Leaf(0, 0, [])

  // ---- Encoding ----

  function EntrySize(e: Entry): nat { 10 + 4 * |e.values| }

  function EntriesSize(es: seq<Entry>): nat {
    if es == [] then 0 else EntriesSize(es[..|es| - 1]) + EntrySize(es[|es| - 1])
  }

  /** The leaf fits its page. */
  predicate Fits(es: seq<Entry>) {
    HEAD_SIZE + EntriesSize(es) <= PAGE_SIZE
  }

  function ValuesBytes(vs: seq<int32>): (b: bytes)
    ensures |b| == 4 * |vs|
  {
    seq(4 * |vs|, k requires 0 <= k < 4 * |vs| => LE32(vs[k / 4])[k % 4])
  }

  lemma OneMoreValue(vs: seq<int32>, j: nat)
    requires j < |vs|
    ensures ValuesBytes(vs[..j + 1]) == ValuesBytes(vs[..j]) + LE32(vs[j])
  {
    hide LE32;
    var a, b := ValuesBytes(vs[..j + 1]), ValuesBytes(vs[..j]) + LE32(vs[j]);
    forall k | 0 <= k < 4 * (j + 1) ensures a[k] == b[k] {
      assert a[k] == LE32(vs[k / 4])[k % 4];
    }
  }

  function EntryBytes(e: Entry): (b: bytes)
    ensures |b| == EntrySize(e)
  {
    LE32(e.key) + LE16(|e.values|) + ValuesBytes(e.values) + LE32(e.overflow)
  }

  function EntriesBytes(es: seq<Entry>): (b: bytes)
    ensures |b| == EntriesSize(es)
  {
    if es == [] then [] else EntriesBytes(es[..|es| - 1]) + EntryBytes(es[|es| - 1])
  }

  function HeadBytes(l: Leaf): (b: bytes)
    ensures |b| == HEAD_SIZE
  {
    [l.pageType] + LE16(|l.entries|) + LE32(l.nextLeaf)
  }

  function LeafPage(l: Leaf): (b: bytes)
    requires Fits(l.entries)
    ensures |b| == PAGE_SIZE
  {
    HeadBytes(l) + EntriesBytes(l.entries) + Zeros(PAGE_SIZE - HEAD_SIZE - EntriesSize(l.entries))
  }

  // ---- Decoding ----

  function ReadValues(page: bytes, pos: nat, n: nat): (vs: seq<int32>)
    requires pos + 4 * n <= |page|
    ensures |vs| == n
  {
    seq(n, j requires 0 <= j < n => UnLE32(page[pos + 4 * j..pos + 4 * j + 4]))
  }

  /** The entry at `pos` and the position after it, if the page holds one there. */
  function DecodeEntry(page: bytes, pos: nat): (r: Option<(Entry, nat)>)
    ensures r.Some? ==> r.value.1 == pos + EntrySize(r.value.0) <= |page|
  {
    if pos + 10 > |page| then None
    else
      var n := UnLE16(page[pos + 4..pos + 6]);
      if n > MAX_VALUES || pos + 6 + n * 4 + 4 > |page| then None
      else
        var end := pos + 6 + 4 * n;
        Some((Entry(UnLE32(page[pos..pos + 4]), ReadValues(page, pos + 6, n), UnLE32(page[end..end + 4])), end + 4))
  }

  /** The first `n` entries of a page and the position after them. */
  function DecodeEntries(page: bytes, n: nat): (r: Option<(seq<Entry>, nat)>)
    ensures r.Some? ==> |r.value.0| == n && r.value.1 == HEAD_SIZE + EntriesSize(r.value.0)
  {
    if n == 0 then Some(([], HEAD_SIZE))
    else
      match DecodeEntries(page, n - 1)
      case None => None
      case Some((es, pos)) =>
        match DecodeEntry(page, pos)
        case None => None
        case Some((e, next)) =>
          assert (es + [e])[..n - 1] == es;
          Some((es + [e], next))
  }

  function DecodeLeaf(page: bytes): (r: Option<Leaf>)
    requires |page| == PAGE_SIZE
  {
    var n := UnLE16(page[1..3]);
    if n > MAX_KEYS then None
    else
      match DecodeEntries(page, n)
      case None => None
      case Some((es, _)) => Some(Leaf(page[0], UnLE32(page[3..7]), es))
  }

  /** Whatever a page decodes to fits a page. */
  lemma {:induction false} DecodedFits(page: bytes, n: nat)
    requires |page| == PAGE_SIZE
    ensures DecodeEntries(page, n).Some? ==> Fits(DecodeEntries(page, n).value.0)
  {
    if n > 0 && DecodeEntries(page, n).Some? {
      assert DecodeEntry(page, DecodeEntries(page, n - 1).value.1).Some?;
    }
  }

  // ---- Decoding undoes encoding ----

  lemma ValuesRead(page: bytes, pos: nat, vs: seq<int32>)
    requires pos + 4 * |vs| <= |page| && page[pos..pos + 4 * |vs|] == ValuesBytes(vs)
    ensures ReadValues(page, pos, |vs|) == vs
  {
    hide LE32, UnLE32;
    forall j | 0 <= j < |vs| ensures ReadValues(page, pos, |vs|)[j] == vs[j] {
      var b := page[pos + 4 * j..pos + 4 * j + 4];
      forall k | 0 <= k < 4 ensures b[k] == LE32(vs[j])[k] {
        assert b[k] == page[pos..pos + 4 * |vs|][4 * j + k];
      }
      assert b == LE32(vs[j]);
      LittleEndianInverse32(vs[j], b);
    }
  }

  lemma EntryRead(page: bytes, pos: nat, e: Entry)
    requires pos + EntrySize(e) <= |page| && page[pos..pos + EntrySize(e)] == EntryBytes(e)
    ensures DecodeEntry(page, pos) == Some((e, pos + EntrySize(e)))
  {
    hide LE32, LE16, ValuesBytes, ReadValues, UnLE32, UnLE16;
    var b := EntryBytes(e);
    var n := |e.values|;
    SliceOfSlice(page, pos, pos + 10 + 4 * n, 0, 4);
    SliceOfSlice(page, pos, pos + 10 + 4 * n, 4, 6);
    SliceOfSlice(page, pos, pos + 10 + 4 * n, 6, 6 + 4 * n);
    SliceOfSlice(page, pos, pos + 10 + 4 * n, 6 + 4 * n, 10 + 4 * n);
    assert b[..4] == LE32(e.key);
    assert b[4..6] == LE16(n);
    assert b[6..6 + 4 * n] == ValuesBytes(e.values);
    assert b[6 + 4 * n..10 + 4 * n] == LE32(e.overflow);
    LittleEndianInverse32(e.key, LE32(e.key));
    LittleEndianInverse32(e.overflow, LE32(e.overflow));
    LittleEndianInverse16(n, LE16(n));
    ValuesRead(page, pos + 6, e.values);
  }

  lemma SliceOfSlice<T>(s: seq<T>, from: nat, to: nat, i: nat, j: nat)
    requires from <= to <= |s| && i <= j <= to - from
    ensures s[from..to][i..j] == s[from + i..from + j]
  {
    var a, b := s[from..to][i..j], s[from + i..from + j];
    forall k | 0 <= k < |a| ensures a[k] == b[k] {
      assert a[k] == s[from..to][i + k];
    }
  }

  lemma {:induction false} EntriesPrefix(es: seq<Entry>, i: nat)
    requires i < |es|
    ensures EntriesSize(es[..i]) + EntrySize(es[i]) == EntriesSize(es[..i + 1]) <= EntriesSize(es)
    ensures EntriesBytes(es)[EntriesSize(es[..i])..EntriesSize(es[..i + 1])] == EntryBytes(es[i])
    decreases |es|
  {
    hide EntrySize, EntryBytes;
    assert es[..i + 1][..i] == es[..i];
    if i == |es| - 1 {
      assert es[..i + 1] == es;
    } else {
      var init := es[..|es| - 1];
      EntriesPrefix(init, i);
      assert init[..i] == es[..i] && init[..i + 1] == es[..i + 1];
    }
  }

  lemma EntriesInPage(l: Leaf, from: nat, to: nat)
    requires Fits(l.entries) && from <= to <= EntriesSize(l.entries)
    ensures LeafPage(l)[HEAD_SIZE + from..HEAD_SIZE + to] == EntriesBytes(l.entries)[from..to]
  {
    hide EntriesBytes, HeadBytes, EntriesSize;
    SliceOfMiddle(HeadBytes(l), EntriesBytes(l.entries), Zeros(PAGE_SIZE - HEAD_SIZE - EntriesSize(l.entries)), from,
      to);
  }

  lemma SliceOfMiddle(a: bytes, b: bytes, c: bytes, from: nat, to: nat)
    requires from <= to <= |b|
    ensures (a + b + c)[|a| + from..|a| + to] == b[from..to]
  {
  }

  lemma {:induction false} EntriesRead(l: Leaf, i: nat)
    requires Fits(l.entries) && i <= |l.entries|
    ensures DecodeEntries(LeafPage(l), i) == Some((l.entries[..i], HEAD_SIZE + EntriesSize(l.entries[..i])))
  {
    hide EntryBytes, EntrySize, DecodeEntry, LeafPage, EntriesBytes, EntriesSize;
    NoneSize(l.entries);
    if i > 0 {
      var page, es := LeafPage(l), l.entries;
      EntriesRead(l, i - 1);
      EntriesPrefix(es, i - 1);
      var from, to := EntriesSize(es[..i - 1]), EntriesSize(es[..i]);
      EntriesInPage(l, from, to);
      EntryRead(page, HEAD_SIZE + from, es[i - 1]);
      assert es[..i - 1] + [es[i - 1]] == es[..i];
    }
  }

  lemma NoneSize(es: seq<Entry>)
    ensures EntriesSize(es[..0]) == 0
  {
  }

  /** DeserializeLeaf undoes SerializeLeaf on every leaf that fits. */
  lemma LeafRoundTrip(l: Leaf)
    requires Fits(l.entries)
    ensures DecodeLeaf(LeafPage(l)) == Some(l)
  {
    var page := LeafPage(l);
    assert page[1..3] == LE16(|l.entries|) && page[3..7] == LE32(l.nextLeaf);
    LittleEndianInverse16(|l.entries|, LE16(|l.entries|));
    LittleEndianInverse32(l.nextLeaf, LE32(l.nextLeaf));
    EntriesRead(l, |l.entries|);
    assert l.entries[..|l.entries|] == l.entries;
  }

  // ---- Searching ----

  /** The linear search from `i` on that stops at the first larger key. */
  function Search(es: seq<Entry>, key: int32, i: nat): (r: int)
    requires i <= |es|
    ensures r == -1 || (i <= r < |es| && es[r].key == key)
    decreases |es| - i
  {
    if i == |es| || es[i].key > key then -1
    else if es[i].key == key then i
    else Search(es, key, i + 1)
  }

  function FindIndex(es: seq<Entry>, key: int32): (r: int)
    ensures r == -1 || (0 <= r < |es| && es[r].key == key)
  {
    Search(es, key, 0)
  }

  /** The first position from `i` on whose key is larger. */
  function PositionFrom(es: seq<Entry>, key: int32, i: nat): (p: nat)
    requires i <= |es|
    ensures i <= p <= |es|
    ensures forall j :: i <= j < p ==> es[j].key <= key
    ensures p < |es| ==> es[p].key > key
    decreases |es| - i
  {
    if i == |es| || es[i].key > key then i else PositionFrom(es, key, i + 1)
  }

  function WithoutAt<T>(s: seq<T>, i: nat): (r: seq<T>)
    requires i < |s|
    ensures |r| == |s| - 1
    ensures forall j :: 0 <= j < i ==> r[j] == s[j]
    ensures forall j {:trigger r[j]} :: i <= j < |r| ==> r[j] == s[j + 1]
  {
    s[..i] + s[i + 1..]
  }

  function InsertAt(s: seq<Entry>, i: nat, x: Entry): (r: seq<Entry>)
    requires i <= |s|
    ensures |r| == |s| + 1 && r[i] == x
    ensures forall j :: 0 <= j < i ==> r[j] == s[j]
    ensures forall j {:trigger r[j]} :: i < j < |r| ==> r[j] == s[j - 1]
  {
    s[..i] + [x] + s[i..]
  }

  /** The first position of `v`. */
  function PositionOf(vs: seq<int32>, v: int32): (i: nat)
    requires v in vs
    ensures i < |vs| && vs[i] == v && v !in vs[..i]
  {
    if vs[0] == v then 0 else 1 + PositionOf(vs[1..], v)
  }

  // ---- What the operations do to the entries ----

  function Inserted(es: seq<Entry>, key: int32, value: int32): (r: Option<seq<Entry>>)
    requires |es| <= MAX_KEYS
    ensures r.Some? ==> |r.value| <= MAX_KEYS && (Fits(es) ==> Fits(r.value))
  {
    var i := FindIndex(es, key);
    if i >= 0 then
      if value in es[i].values then Some(es)
      else if |es[i].values| >= MAX_VALUES then None
      else IfFits(es[i := es[i].(values := es[i].values + [value])])
    else if |es| >= MAX_KEYS then None
    else IfFits(InsertAt(es, PositionFrom(es, key, 0), Entry(key, [value], 0)))
  }

  function IfFits(es: seq<Entry>): Option<seq<Entry>> {
    if Fits(es) then Some(es) else None
  }

  function Deleted(es: seq<Entry>, key: int32): Option<seq<Entry>> {
    var i := FindIndex(es, key);
    if i < 0 then None else Some(WithoutAt(es, i))
  }

  function ValueDeleted(es: seq<Entry>, key: int32, value: int32): Option<seq<Entry>> {
    var i := FindIndex(es, key);
    if i < 0 || value !in es[i].values then None
    else
      var vs := WithoutAt(es[i].values, PositionOf(es[i].values, value));
      Some(if vs == [] then WithoutAt(es, i) else es[i := es[i].(values := vs)])
  }

  function Found(es: seq<Entry>, key: int32): Option<seq<int32>> {
    var i := FindIndex(es, key);
    if i < 0 then None else Some(es[i].values)
  }

  // ---- The operations on the map they keep ----

  predicate Sorted(es: seq<Entry>) {
    forall i, j :: 0 <= i < j < |es| ==> es[i].key < es[j].key
  }

  predicate Distinct<T(==)>(vs: seq<T>) {
    forall i, j :: 0 <= i < j < |vs| ==> vs[i] != vs[j]
  }

  /** Sorted distinct keys, each with distinct values and at least one. */
  predicate Proper(es: seq<Entry>) {
    && Sorted(es)
    && forall i :: 0 <= i < |es| ==> es[i].values != [] && Distinct(es[i].values) && es[i].overflow == 0
  }

  /** The keys with their values in insertion order. */
  function ToMap(es: seq<Entry>): map<int32, seq<int32>>
    requires Sorted(es)
  {
    map i | 0 <= i < |es| :: es[i].key := es[i].values
  }

  lemma MapEntry(es: seq<Entry>, i: nat)
    requires Sorted(es) && i < |es|
    ensures es[i].key in ToMap(es) && ToMap(es)[es[i].key] == es[i].values
  {
  }

  lemma MapKey(es: seq<Entry>, key: int32) returns (i: nat)
    requires Sorted(es) && key in ToMap(es)
    ensures i < |es| && es[i].key == key && ToMap(es)[key] == es[i].values
  {
    i :| 0 <= i < |es| && es[i].key == key;
  }

  /** On sorted keys the search that stops early finds every key that is there. */
  lemma {:induction false} SearchFinds(es: seq<Entry>, key: int32, i: nat)
    requires Sorted(es) && i <= |es|
    requires forall j :: 0 <= j < i ==> es[j].key != key
    ensures Search(es, key, i) >= 0 <==> key in ToMap(es)
    ensures Search(es, key, i) >= 0 ==> ToMap(es)[key] == es[Search(es, key, i)].values
    decreases |es| - i
  {
    hide ToMap;
    if key in ToMap(es) {
      var j := MapKey(es, key);
    }
    if i < |es| {
      MapEntry(es, i);
      if es[i].key < key {
        SearchFinds(es, key, i + 1);
      }
    }
  }

  lemma FoundIsLookup(es: seq<Entry>, key: int32)
    requires Sorted(es)
    ensures Found(es, key) == if key in ToMap(es) then Some(ToMap(es)[key]) else None
  {
    SearchFinds(es, key, 0);
  }

  lemma {:induction false} SizeConcat(a: seq<Entry>, b: seq<Entry>)
    ensures EntriesSize(a + b) == EntriesSize(a) + EntriesSize(b)
    decreases |b|
  {
    if b == [] {
      assert a + b == a;
    } else {
      assert (a + b)[..|a + b| - 1] == a + b[..|b| - 1];
      SizeConcat(a, b[..|b| - 1]);
    }
  }

  lemma SizeOne(e: Entry)
    ensures EntriesSize([e]) == EntrySize(e)
  {
    assert [e][..0] == [];
  }

  lemma SizeReplaced(es: seq<Entry>, i: nat, mid: seq<Entry>)
    requires i < |es|
    ensures EntriesSize(es[..i] + mid + es[i + 1..]) == EntriesSize(es) - EntrySize(es[i]) + EntriesSize(mid)
  {
    hide EntriesSize, EntrySize;
    SizeConcat(es[..i] + mid, es[i + 1..]);
    SizeConcat(es[..i], mid);
    SizeConcat(es[..i] + [es[i]], es[i + 1..]);
    SizeConcat(es[..i], [es[i]]);
    assert es == es[..i] + [es[i]] + es[i + 1..];
    SizeOne(es[i]);
  }

  lemma SizeInserted(es: seq<Entry>, i: nat, e: Entry)
    requires i <= |es|
    ensures EntriesSize(InsertAt(es, i, e)) == EntriesSize(es) + EntrySize(e)
  {
    hide *;
    SizeConcat(es[..i] + [e], es[i..]);
    SizeConcat(es[..i], [e]);
    SizeConcat(es[..i], es[i..]);
    assert es == es[..i] + es[i..];
    SizeOne(e);
    InsertAtIs(es, i, e);
  }

  lemma InsertAtIs(es: seq<Entry>, i: nat, e: Entry)
    requires i <= |es|
    ensures InsertAt(es, i, e) == es[..i] + [e] + es[i..]
  {
  }

  /** Every key takes at least fourteen bytes, so a page holds at most thirty-six. */
  lemma {:induction false} SizeAtLeast(es: seq<Entry>)
    requires forall i :: 0 <= i < |es| ==> es[i].values != []
    ensures EntriesSize(es) >= 14 * |es|
    ensures Fits(es) ==> |es| <= 36
  {
    if es != [] {
      SizeAtLeast(es[..|es| - 1]);
    }
  }

  function Values(m: map<int32, seq<int32>>, key: int32): seq<int32> {
    if key in m then m[key] else []
  }

  lemma MapOfInsert(es: seq<Entry>, p: nat, e: Entry)
    requires Sorted(es) && p <= |es| && Sorted(InsertAt(es, p, e))
    ensures ToMap(InsertAt(es, p, e)) == ToMap(es)[e.key := e.values]
  {
    hide ToMap, InsertAt;
    var es' := InsertAt(es, p, e);
    var m, m' := ToMap(es)[e.key := e.values], ToMap(es');
    forall k | k in m' ensures k in m && m[k] == m'[k] {
      var j := MapKey(es', k);
      if j != p {
        MapEntry(es, if j < p then j else j - 1);
      }
    }
    forall k | k in m ensures k in m' {
      if k == e.key {
        MapEntry(es', p);
      } else {
        var j := MapKey(es, k);
        MapEntry(es', if j < p then j else j + 1);
      }
    }
    assert m == m';
  }

  lemma MapOfRemoval(es: seq<Entry>, p: nat)
    requires Sorted(es) && p < |es|
    ensures Sorted(WithoutAt(es, p)) && ToMap(WithoutAt(es, p)) == ToMap(es) - {es[p].key}
  {
    hide ToMap, WithoutAt;
    var es' := WithoutAt(es, p);
    var m, m' := ToMap(es) - {es[p].key}, ToMap(es');
    forall k | k in m' ensures k in m && m[k] == m'[k] {
      var j := MapKey(es', k);
      MapEntry(es, if j < p then j else j + 1);
    }
    forall k | k in m ensures k in m' {
      var j := MapKey(es, k);
      MapEntry(es', if j < p then j else j - 1);
    }
    assert m == m';
  }

  lemma MapOfUpdate(es: seq<Entry>, p: nat, vs: seq<int32>)
    requires Sorted(es) && p < |es| && |vs| <= MAX_VALUES
    ensures var es' := es[p := es[p].(values := vs)]; Sorted(es') && ToMap(es') == ToMap(es)[es[p].key := vs]
  {
    hide ToMap;
    var es' := es[p := es[p].(values := vs)];
    assert forall j :: 0 <= j < |es| ==> es'[j].key == es[j].key;
    assert Sorted(es');
    var m, m' := ToMap(es)[es[p].key := vs], ToMap(es');
    forall k | k in m' ensures k in m && m[k] == m'[k] {
      var j := MapKey(es', k);
      MapEntry(es, j);
    }
    forall k | k in m ensures k in m' {
      if k == es[p].key {
        MapEntry(es', p);
      } else {
        var j := MapKey(es, k);
        MapEntry(es', j);
      }
    }
    assert m == m';
  }

  lemma SizeOfUpdate(es: seq<Entry>, p: nat, e: Entry)
    requires p < |es|
    ensures EntriesSize(es[p := e]) == EntriesSize(es) - EntrySize(es[p]) + EntrySize(e)
  {
    hide EntriesSize, EntrySize;
    SizeReplaced(es, p, [e]);
    assert es[p := e] == es[..p] + [e] + es[p + 1..];
    SizeOne(e);
  }

  lemma SizeOfRemoval(es: seq<Entry>, p: nat)
    requires p < |es|
    ensures EntriesSize(WithoutAt(es, p)) == EntriesSize(es) - EntrySize(es[p])
  {
    hide EntrySize;
    SizeReplaced(es, p, []);
    assert es[..p] + [] + es[p + 1..] == WithoutAt(es, p);
  }

  lemma InsertedStaysSorted(es: seq<Entry>, key: int32, value: int32)
    requires Proper(es) && key !in ToMap(es)
    ensures Proper(InsertAt(es, PositionFrom(es, key, 0), Entry(key, [value], 0)))
  {
    hide ToMap, InsertAt;
    forall j | 0 <= j < |es| ensures es[j].key != key {
      MapEntry(es, j);
    }
  }

  /** What an insertion leaves: the value added at the end of its key's values, once. */
  lemma InsertRefines(es: seq<Entry>, key: int32, value: int32)
    requires Proper(es) && Fits(es) && |es| <= MAX_KEYS
    ensures var m, r := ToMap(es), Inserted(es, key, value);
      var vs := Values(m, key);
      r.Some? ==>
        && Proper(r.value) && Fits(r.value)
        && ToMap(r.value) == m[key := if value in vs then vs else vs + [value]]
  {
    hide ToMap, InsertAt, PositionFrom, EntriesSize;
    SearchFinds(es, key, 0);
    var i := FindIndex(es, key);
    if i >= 0 {
      if value !in es[i].values && |es[i].values| < MAX_VALUES {
        MapOfUpdate(es, i, es[i].values + [value]);
      }
    } else {
      var none: seq<int32> := [];
      assert none + [value] == [value];
      InsertedStaysSorted(es, key, value);
      MapOfInsert(es, PositionFrom(es, key, 0), Entry(key, [value], 0));
    }
  }

  /** An insertion is refused exactly when the value is new and either its key has sixty values or the enlarged
      leaf does not fit the page; the limit of sixty keys is never what refuses it. */
  lemma InsertSucceeds(es: seq<Entry>, key: int32, value: int32)
    requires Proper(es) && Fits(es) && |es| <= MAX_KEYS
    ensures var m := ToMap(es);
      var vs := Values(m, key);
      Inserted(es, key, value).Some? <==>
        value in vs || (|vs| < 60 && 7 + EntriesSize(es) + (if key in m then 4 else 14) <= 512)
  {
    hide ToMap, InsertAt, PositionFrom, EntriesSize;
    SearchFinds(es, key, 0);
    SizeAtLeast(es);
    var i := FindIndex(es, key);
    if i >= 0 {
      if value !in es[i].values && |es[i].values| < MAX_VALUES {
        SizeOfUpdate(es, i, es[i].(values := es[i].values + [value]));
      }
    } else {
      SizeInserted(es, PositionFrom(es, key, 0), Entry(key, [value], 0));
    }
  }

  lemma InsertedGrowth(es: seq<Entry>, key: int32, value: int32)
    requires |es| <= MAX_KEYS && Inserted(es, key, value).Some?
    ensures |Inserted(es, key, value).value| <= |es| + 1
  {
    hide Fits, FindIndex, PositionFrom;
  }

  /** Deleting a key that is present succeeds and removes it alone; deleting an absent one is refused. */
  lemma DeleteRefines(es: seq<Entry>, key: int32)
    requires Proper(es) && Fits(es)
    ensures var m, r := ToMap(es), Deleted(es, key);
      && (r.Some? <==> key in m)
      && (r.Some? ==> Proper(r.value) && Fits(r.value) && ToMap(r.value) == m - {key} && |r.value| == |es| - 1)
  {
    hide ToMap, WithoutAt, EntriesSize;
    SearchFinds(es, key, 0);
    var i := FindIndex(es, key);
    if i >= 0 {
      MapOfRemoval(es, i);
      SizeOfRemoval(es, i);
    }
  }

  /** Deleting a value that is present succeeds and removes it alone, with its key when it was the last. */
  lemma ValueDeleteRefines(es: seq<Entry>, key: int32, value: int32)
    requires Proper(es) && Fits(es)
    ensures var m, r := ToMap(es), ValueDeleted(es, key, value);
      && (r.Some? <==> value in Values(m, key))
      && (r.Some? ==>
        var vs := WithoutAt(m[key], PositionOf(m[key], value));
        Proper(r.value) && Fits(r.value) && value !in vs
          && ToMap(r.value) == if vs == [] then m - {key} else m[key := vs])
  {
    hide ToMap, WithoutAt, EntriesSize;
    SearchFinds(es, key, 0);
    var i := FindIndex(es, key);
    if i >= 0 && value in es[i].values {
      var vs := WithoutAt(es[i].values, PositionOf(es[i].values, value));
      RemovedOnce(es[i].values, PositionOf(es[i].values, value));
      if vs == [] {
        MapOfRemoval(es, i);
        SizeOfRemoval(es, i);
      } else {
        MapOfUpdate(es, i, vs);
        SizeOfUpdate(es, i, es[i].(values := vs));
      }
    }
  }

  lemma RemovedOnce(vs: seq<int32>, p: nat)
    requires Distinct(vs) && p < |vs|
    ensures Distinct(WithoutAt(vs, p)) && vs[p] !in WithoutAt(vs, p)
  {
    hide WithoutAt;
  }
}
