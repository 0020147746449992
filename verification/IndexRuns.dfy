/** Runs of changes to an index that starts as CreateBTree leaves it. */
module IndexRuns {
  import opened Words
  import opened Leaf
  import BTree

  datatype Change = Put(key: int32, value: int32) | Drop(key: int32) | DropValue(key: int32, value: int32)

  /** BTreeInsert, BTreeDelete or BTreeDeleteValue on the entries; none when it fails. */
  function Changed(es: seq<Entry>, c: Change): (r: Option<seq<Entry>>)
    requires |es| <= MAX_KEYS
    ensures r.Some? ==> |r.value| <= MAX_KEYS
  {
    match c
    case Put(key, value) => Inserted(es, key, value)
    case Drop(key) => Deleted(es, key)
    case DropValue(key, value) => ValueDeleted(es, key, value)
  }

  /** The entries after the changes, those that fail left out. */
  function After(cs: seq<Change>): (r: seq<Entry>)
    ensures |r| <= MAX_KEYS
  {
    if cs == [] then BTree.EmptyLeaf().entries
    else
      var es := After(cs[..|cs| - 1]);
      match Changed(es, cs[|cs| - 1])
      case None => es
      case Some(r) => r
  }

  /** Whether a change succeeds, in terms of the map and the bytes in use. */
  predicate Succeeds(m: map<int32, seq<int32>>, used: nat, c: Change) {
    match c
    case Put(key, value) =>
      value in Values(m, key)
      || (|Values(m, key)| < 60 && 7 + used + (if key in m then 4 else 14) <= 512)
    case Drop(key) => key in m
    case DropValue(key, value) => value in Values(m, key)
  }

  /** The values with one of them removed. */
  function Rest(vs: seq<int32>, value: int32): seq<int32> {
    if vs == [] then [] else if vs[0] == value then vs[1..] else [vs[0]] + Rest(vs[1..], value)
  }

  /** What a change that succeeds does to the map. */
  function Meaning(m: map<int32, seq<int32>>, c: Change): map<int32, seq<int32>> {
    match c
    case Put(key, value) => if value in Values(m, key) then m else m[key := Values(m, key) + [value]]
    case Drop(key) => m - {key}
    case DropValue(key, value) =>
      var rest := Rest(Values(m, key), value);
      if rest == [] then m - {key} else m[key := rest]
  }

  /** The map after the changes that succeed. */
  function MapAfter(cs: seq<Change>): map<int32, seq<int32>> {
    if cs == [] then map[]
    else
      var m := MapAfter(cs[..|cs| - 1]);
      if Succeeds(m, EntriesSize(After(cs[..|cs| - 1])), cs[|cs| - 1]) then Meaning(m, cs[|cs| - 1]) else m
  }

  lemma {:induction false} RestIsRemoval(vs: seq<int32>, value: int32)
    requires value in vs
    ensures Rest(vs, value) == WithoutAt(vs, PositionOf(vs, value))
  {
    if vs[0] != value {
      RestIsRemoval(vs[1..], value);
      assert vs == [vs[0]] + vs[1..];
    }
  }

  lemma PutAgain(m: map<int32, seq<int32>>, key: int32)
    requires key in m
    ensures m[key := m[key]] == m
  {
  }

  /** A change of a proper leaf succeeds as its map says, and does to it what its map says. */
  lemma ChangeRefines(es: seq<Entry>, c: Change)
    requires Proper(es) && Fits(es) && |es| <= 36
    ensures var m, r := ToMap(es), Changed(es, c);
      && (r.Some? <==> Succeeds(m, EntriesSize(es), c))
      && (r.Some? ==> Proper(r.value) && Fits(r.value) && |r.value| <= 36 && ToMap(r.value) == Meaning(m, c))
  {
    hide ToMap, Inserted, Deleted, ValueDeleted, EntriesSize, Rest;
    var r := Changed(es, c);
    match c {
      case Put(key, value) =>
        InsertSucceeds(es, key, value);
        InsertRefines(es, key, value);
        if value in Values(ToMap(es), key) {
          PutAgain(ToMap(es), key);
        }
      case Drop(key) =>
        DeleteRefines(es, key);
      case DropValue(key, value) =>
        ValueDeleteRefines(es, key, value);
        if r.Some? {
          RestIsRemoval(ToMap(es)[key], value);
        }
    }
    if r.Some? {
      SizeAtLeast(r.value);
    }
  }

  predicate NoOverflow(es: seq<Entry>) {
    forall i :: 0 <= i < |es| ==> es[i].overflow == 0
  }

  lemma ChangedOverflow(es: seq<Entry>, c: Change)
    requires NoOverflow(es) && |es| <= MAX_KEYS
    ensures Changed(es, c).Some? ==> NoOverflow(Changed(es, c).value)
  {
    hide FindIndex, PositionFrom, PositionOf, EntriesSize;
  }

  lemma StartsEmpty()
    ensures Proper(BTree.EmptyLeaf().entries) && Fits(BTree.EmptyLeaf().entries)
      && ToMap(BTree.EmptyLeaf().entries) == map[]
    ensures BTree.EmptyLeaf().entries == []
  {
  }

  /** In every leaf reached from a new index the keys are sorted and distinct, each with distinct values and at least
      one, there are at most thirty-six keys, and the leaf is the map that the successful changes make. No entry has an
      overflow page. */
  lemma {:induction false} ReachableLeaf(cs: seq<Change>)
    ensures Proper(After(cs)) && Fits(After(cs)) && |After(cs)| <= 36 && ToMap(After(cs)) == MapAfter(cs)
    ensures NoOverflow(After(cs))
  {
    hide Proper, Fits, ToMap, Changed, Succeeds, Meaning, EntriesSize, BTree.EmptyLeaf;
    if cs == [] {
      StartsEmpty();
    } else {
      ReachableLeaf(cs[..|cs| - 1]);
      ChangeRefines(After(cs[..|cs| - 1]), cs[|cs| - 1]);
      ChangedOverflow(After(cs[..|cs| - 1]), cs[|cs| - 1]);
    }
  }
}
