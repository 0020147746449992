/** The primary index: one value per key, the number of the first page of the record with that id. */
module Directories {
  import opened Words
  import opened Leaf
  import opened Pages

  const MAX_RECORDS := 36

  /** Every key has exactly one value. */
  predicate Singles(es: seq<Entry>) {
    Proper(es) && Fits(es) && forall i :: 0 <= i < |es| ==> |es[i].values| == 1
  }

  function DirectoryOf(es: seq<Entry>): (dir: Directory)
    requires Sorted(es)
  {
    map id | id in ToMap(es) && ToMap(es)[id] != [] :: ToMap(es)[id][0] - 2
  }

  lemma SingleValues(es: seq<Entry>, id: int32)
    requires Singles(es) && id in ToMap(es)
    ensures |ToMap(es)[id]| == 1
  {
    var i := MapKey(es, id);
  }

  /** Looking an id up gives the first page of its record. */
  lemma Lookup(es: seq<Entry>, id: int32)
    requires Singles(es)
    ensures id in DirectoryOf(es) <==> Found(es, id).Some?
    ensures id in DirectoryOf(es) ==> |Found(es, id).value| == 1 && Found(es, id).value[0] == DirectoryOf(es)[id] + 2
  {
    hide ToMap;
    FoundIsLookup(es, id);
    if id in ToMap(es) {
      SingleValues(es, id);
    }
  }

  lemma {:induction false} SinglesSize(es: seq<Entry>)
    requires forall i :: 0 <= i < |es| ==> |es[i].values| == 1
    ensures EntriesSize(es) == 14 * |es|
  {
    if es != [] {
      SinglesSize(es[..|es| - 1]);
    }
  }

  lemma AllSingle(es: seq<Entry>)
    requires Proper(es) && forall id :: id in ToMap(es) ==> |ToMap(es)[id]| == 1
    ensures forall i :: 0 <= i < |es| ==> |es[i].values| == 1
  {
    forall i | 0 <= i < |es| ensures |es[i].values| == 1 {
      MapEntry(es, i);
    }
  }

  /** A fresh id can be entered exactly while fewer than thirty-six are. */
  lemma Enter(es: seq<Entry>, id: int32, page: int32)
    requires Singles(es) && id !in DirectoryOf(es) && |es| <= MAX_KEYS
    ensures Inserted(es, id, page).Some? <==> |es| < MAX_RECORDS
    ensures |es| < MAX_RECORDS ==>
      var r := Inserted(es, id, page).value;
      Singles(r) && DirectoryOf(r) == DirectoryOf(es)[id := page - 2] && |r| == |es| + 1
  {
    hide ToMap, Inserted, EntriesSize;
    SinglesSize(es);
    assert id !in ToMap(es) by {
      if id in ToMap(es) {
        SingleValues(es, id);
      }
    }
    InsertSucceeds(es, id, page);
    InsertRefines(es, id, page);
    if |es| < MAX_RECORDS {
      var r := Inserted(es, id, page).value;
      var none: seq<int32> := [];
      assert none + [page] == [page];
      assert ToMap(r) == ToMap(es)[id := [page]];
      forall x | x in ToMap(r) ensures |ToMap(r)[x]| == 1 {
        if x != id {
          SingleValues(es, x);
        }
      }
      AllSingle(r);
      InsertedLength(es, id, page);
    }
  }

  lemma InsertedLength(es: seq<Entry>, id: int32, page: int32)
    requires Proper(es) && id !in ToMap(es) && |es| <= MAX_KEYS && Inserted(es, id, page).Some?
    ensures |Inserted(es, id, page).value| == |es| + 1
  {
    hide ToMap, Fits;
    SearchFinds(es, id, 0);
  }

  /** Entering a second page for an id keeps the first one first. */
  lemma Reenter(es: seq<Entry>, id: int32, page: int32)
    requires Singles(es) && id in DirectoryOf(es) && page != DirectoryOf(es)[id] + 2 && |es| < MAX_RECORDS
    ensures Inserted(es, id, page).Some?
    ensures Found(Inserted(es, id, page).value, id) == Some([DirectoryOf(es)[id] + 2, page])
  {
    hide ToMap, Inserted, Found, EntriesSize;
    SinglesSize(es);
    SingleValues(es, id);
    InsertSucceeds(es, id, page);
    InsertRefines(es, id, page);
    FoundIsLookup(Inserted(es, id, page).value, id);
    assert ToMap(es)[id] == [DirectoryOf(es)[id] + 2];
    assert [DirectoryOf(es)[id] + 2] + [page] == [DirectoryOf(es)[id] + 2, page];
  }

  /** Removing an id removes its entry alone. */
  lemma Remove(es: seq<Entry>, id: int32)
    requires Singles(es) && id in DirectoryOf(es)
    ensures Deleted(es, id).Some?
    ensures var r := Deleted(es, id).value;
      Singles(r) && DirectoryOf(r) == DirectoryOf(es) - {id} && |r| == |es| - 1
  {
    hide ToMap, Deleted, Fits;
    DeleteRefines(es, id);
    var r := Deleted(es, id).value;
    forall x | x in ToMap(r) ensures |ToMap(r)[x]| == 1 {
      SingleValues(es, x);
    }
    AllSingle(r);
    assert DirectoryOf(r) == DirectoryOf(es) - {id};
  }

  lemma NoEntries()
    ensures Singles([]) && DirectoryOf([]) == map[]
  {
  }

  /** There are as many records as entries. */
  lemma {:induction false} DirectorySize(es: seq<Entry>)
    requires Singles(es)
    ensures |DirectoryOf(es)| == |es|
    decreases |es|
  {
    hide ToMap, Fits, Deleted;
    if es == [] {
      NoEntries();
    } else {
      var id := es[0].key;
      MapEntry(es, 0);
      SingleValues(es, id);
      Remove(es, id);
      var r := Deleted(es, id).value;
      DirectorySize(r);
      assert DirectoryOf(es) == DirectoryOf(r)[id := DirectoryOf(es)[id]];
    }
  }
}
