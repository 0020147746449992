/** Finding a record by the string that a secondary index was given for it. */
module Lookup {
  import opened Words
  import opened DbTypes
  import opened Strings
  import opened Engine
  import BTree
  import Files

  const MAX_CANDIDATES := 16

  predicate NamesTerminated(infos: seq<DBIndexInfo>) {
    forall i :: i in infos ==> Terminated(i.fieldName)
  }

  /** The first index, from position `i` on, whose name equals the field's but for the case of letters. */
  function IndexFor(infos: seq<DBIndexInfo>, field: bytes, i: nat): (r: Option<DBIndexInfo>)
    requires i <= |infos| && NamesTerminated(infos)
    ensures r.Some? ==> r.value in infos && Lower(Text(r.value.fieldName)) == Lower(field)
    ensures r.None? ==> forall k :: i <= k < |infos| ==> Lower(Text(infos[k].fieldName)) != Lower(field)
    decreases |infos| - i
  {
    if i == |infos| then None
    else if Lower(Text(infos[i].fieldName)) == Lower(field) then Some(infos[i])
    else IndexFor(infos, field, i + 1)
  }

  /** GenerateIndexKey: strings are hashed, any other value is read as a number. */
  function KeyFor(indexType: byte, value: bytes): int32
    requires if indexType == IT_STRING then Terminated(value) else |value| >= 4
  {
    if indexType == IT_STRING then KeyOf(Text(value)) else UnLE32(value[..4])
  }

  /** The first of the candidate ids, from position `j` on, that has a record. */
  function FirstFound(s: State, ids: seq<int32>, j: nat): (r: Option<(int32, bytes)>)
    requires j <= |ids|
    ensures r.Some? ==> r.value.0 in ids[j..] && FindRecord(s, r.value.0) == Some(r.value.1)
    ensures r.None? ==> forall k :: j <= k < |ids| ==> FindRecord(s, ids[k]).None?
    decreases |ids| - j
  {
    if j == |ids| then None
    else
      match FindRecord(s, ids[j])
      case Some(data) => Some((ids[j], data))
      case None => FirstFound(s, ids, j + 1)
  }

  /** The same search on the blocks of a file, wherever its index sends it. */
  function FirstInFile(file: seq<bytes>, index: BTree.IndexFile, size: uint16, ids: seq<int32>, j: nat)
    : Option<(int32, bytes)>
    requires Files.Blocks(file, DB_PAGE_SIZE) && j <= |ids|
    decreases |ids| - j
  {
    if j == |ids| then None
    else
      match Files.FindInFile(file, index, size, ids[j])
      case Some(data) => Some((ids[j], data))
      case None => FirstInFile(file, index, size, ids, j + 1)
  }

  lemma FirstNext(file: seq<bytes>, index: BTree.IndexFile, size: uint16, ids: seq<int32>, j: nat)
    requires Files.Blocks(file, DB_PAGE_SIZE) && j <= |ids|
    ensures var r := FirstInFile(file, index, size, ids, j);
      && (j == |ids| ==> r.None?)
      && (j < |ids| ==>
            match Files.FindInFile(file, index, size, ids[j])
            case Some(data) => r == Some((ids[j], data))
            case None => r == FirstInFile(file, index, size, ids, j + 1))
  {
    hide Files.FindInFile, Files.Blocks;
  }

  /** When the index names data pages only the two searches agree. */
  lemma {:induction false} SearchesAgree(file: seq<bytes>, s: State, ids: seq<int32>, j: nat)
    requires Files.Blocks(file, DB_PAGE_SIZE) && |file| >= 2 && s.disk.pages == Files.DecodePages(file)
    requires Files.Addressed(s.disk.index) && j <= |ids|
    ensures FirstInFile(file, s.disk.index, s.mem.header.recordSize, ids, j) == FirstFound(s, ids, j)
    decreases |ids| - j
  {
    hide Files.Blocks, Files.DecodePages, Files.Addressed, FindRecord, Files.FindInFile;
    if j < |ids| {
      Files.FindsInData(file, s, ids[j]);
      SearchesAgree(file, s, ids, j + 1);
    }
  }

  /** At most the first sixteen ids entered under the key. */
  function Candidates(index: BTree.IndexFile, key: int32): seq<int32> {
    match BTree.LookIn(index, key)
    case None => []
    case Some(ids) => if |ids| <= MAX_CANDIDATES then ids else ids[..MAX_CANDIDATES]
  }

  /** The index that the header lists for a field. */
  function HeaderIndex(h: DBHeader, field: bytes): Option<DBIndexInfo>
    requires h.indexCount <= DB_MAX_INDEXES && NamesTerminated(h.indexes)
  {
    IndexFor(h.indexes[..h.indexCount], field, 0)
  }

  /** The k-th index of the header is the first whose name is that of the field but for the case of letters. */
  predicate FirstNamed(h: DBHeader, field: bytes, k: nat)
    requires h.indexCount <= DB_MAX_INDEXES && NamesTerminated(h.indexes)
  {
    && k < h.indexCount && EqualButForCase(Text(h.indexes[k].fieldName), field)
    && forall j :: 0 <= j < k ==> !EqualButForCase(Text(h.indexes[j].fieldName), field)
  }

  /** The search goes through the first index with the field's name, and fails for want of an index exactly when no
      listed name is the field's. */
  lemma IndexListed(h: DBHeader, field: bytes)
    requires h.indexCount <= DB_MAX_INDEXES && NamesTerminated(h.indexes)
    ensures forall k: nat :: FirstNamed(h, field, k) ==> HeaderIndex(h, field) == Some(h.indexes[k])
    ensures HeaderIndex(h, field).None? <==>
      forall k :: 0 <= k < h.indexCount ==> !EqualButForCase(Text(h.indexes[k].fieldName), field)
  {
    hide Text, EqualButForCase, Lower;
    var infos := h.indexes[..h.indexCount];
    forall k | 0 <= k < h.indexCount
      ensures infos[k] == h.indexes[k]
      ensures Lower(Text(infos[k].fieldName)) == Lower(field) <==> EqualButForCase(Text(h.indexes[k].fieldName), field)
    {
      LowerEqual(Text(infos[k].fieldName), field);
    }
    if HeaderIndex(h, field).Some? {
      var k :| 0 <= k < |infos| && infos[k] == HeaderIndex(h, field).value;
    }
    forall k: nat | FirstNamed(h, field, k) ensures HeaderIndex(h, field) == Some(h.indexes[k]) {
      FoundAt(infos, field, 0, k);
    }
  }

  /** When an index has the field's name one of them is the first. */
  lemma {:induction false} FirstExists(h: DBHeader, field: bytes, n: nat) returns (k: nat)
    requires h.indexCount <= DB_MAX_INDEXES && NamesTerminated(h.indexes) && n <= h.indexCount
    requires exists i :: 0 <= i < n && EqualButForCase(Text(h.indexes[i].fieldName), field)
    ensures FirstNamed(h, field, k)
    decreases n
  {
    hide Text, EqualButForCase;
    if exists i :: 0 <= i < n - 1 && EqualButForCase(Text(h.indexes[i].fieldName), field) {
      k := FirstExists(h, field, n - 1);
    } else {
      k := n - 1;
    }
  }

  lemma ListedFirst(h: DBHeader, field: bytes)
    requires h.indexCount <= DB_MAX_INDEXES && NamesTerminated(h.indexes)
    ensures HeaderIndex(h, field).Some? ==>
      exists k: nat :: FirstNamed(h, field, k) && HeaderIndex(h, field) == Some(h.indexes[k])
  {
    hide HeaderIndex, FirstNamed, EqualButForCase, Text;
    IndexListed(h, field);
    if HeaderIndex(h, field).Some? {
      var k := FirstExists(h, field, h.indexCount);
    }
  }

  lemma {:induction false} FoundAt(infos: seq<DBIndexInfo>, field: bytes, i: nat, k: nat)
    requires i <= k < |infos| && NamesTerminated(infos)
    requires Lower(Text(infos[k].fieldName)) == Lower(field)
    requires forall j :: i <= j < k ==> Lower(Text(infos[j].fieldName)) != Lower(field)
    ensures IndexFor(infos, field, i) == Some(infos[k])
    decreases k - i
  {
    hide Text, Lower;
    if i < k {
      FoundAt(infos, field, i + 1, k);
    }
  }

  /** Strings that compare equal are looked up under one key. */
  lemma KeyOfString(u: bytes, value: bytes)
    requires Terminated(value) && EqualButForCase(u, Text(value))
    ensures KeyFor(1, value) == KeyOf(u)
  {
    hide KeyOf, EqualButForCase, Text;
    EqualStringsEqualKeys(u, Text(value));
  }

  /** The key of a value that is not a string is the number in its first four bytes, least significant first. */
  lemma KeyOfNumber(indexType: byte, x: int32, rest: bytes)
    requires indexType != 1
    ensures KeyFor(indexType, LE32(x) + rest) == x
  {
    assert (LE32(x) + rest)[..4] == LE32(x);
    LittleEndianInverse32(x, LE32(x));
  }

  /** The ids entered in an index under a key. */
  function Under(file: BTree.IndexFile, key: int32): seq<int32> {
    match BTree.LookIn(file, key)
    case None => []
    case Some(ids) => ids
  }

  /** What a search gives that looks at the first sixteen of some ids: the first of them with a record, if any. */
  predicate Answers(data: map<int32, bytes>, ids: seq<int32>, ok: bool, id: int32, content: bytes) {
    && (ok <==> exists j :: 0 <= j < |ids| && j < 16 && ids[j] in data)
    && (ok ==> exists j :: 0 <= j < |ids| && j < 16 && ids[j] == id && id in data && data[id] == content
                           && forall h :: 0 <= h < j ==> ids[h] !in data)
  }

  /** The first of the ids, from position `j` on, that is in the map. */
  function FirstIn(data: map<int32, bytes>, ids: seq<int32>, j: nat): Option<(int32, bytes)>
    requires j <= |ids|
    decreases |ids| - j
  {
    if j == |ids| then None
    else if ids[j] in data then Some((ids[j], data[ids[j]]))
    else FirstIn(data, ids, j + 1)
  }

  /** The first of the ids that is in the map: no earlier one is, and none is found exactly when none is there. */
  lemma {:induction false} FirstInIs(data: map<int32, bytes>, ids: seq<int32>, j: nat)
    requires j <= |ids|
    ensures FirstIn(data, ids, j).None? <==> forall i :: j <= i < |ids| ==> ids[i] !in data
    ensures forall i :: j <= i < |ids| && ids[i] in data && (forall h :: j <= h < i ==> ids[h] !in data) ==>
      FirstIn(data, ids, j) == Some((ids[i], data[ids[i]]))
    decreases |ids| - j
  {
    if j < |ids| && ids[j] !in data {
      FirstInIs(data, ids, j + 1);
    }
  }

  /** A search gives the first candidate that is live. */
  lemma {:induction false} FirstLive(s: State, ids: seq<int32>, j: nat)
    requires Coherent(s) && j <= |ids|
    ensures FirstFound(s, ids, j) == FirstIn(Data(s), ids, j)
    decreases |ids| - j
  {
    hide Coherent, Data, FindRecord;
    if j < |ids| {
      FindsRecords(s, ids[j]);
      if ids[j] !in Data(s) {
        FirstLive(s, ids, j + 1);
      }
    }
  }

  /** Reading the first candidate from the blocks of the file is the search that Answers describes. */
  lemma SearchAnswers(file: seq<bytes>, s: State, index: BTree.IndexFile, key: int32)
    requires Files.Blocks(file, DB_PAGE_SIZE) && |file| >= 2 && s.disk.pages == Files.DecodePages(file)
    requires Coherent(s)
    ensures var r := FirstInFile(file, s.disk.index, s.mem.header.recordSize, Candidates(index, key), 0);
      && (r.Some? ==> Answers(Data(s), Under(index, key), true, r.value.0, r.value.1))
      && (r.None? ==> forall id, content :: Answers(Data(s), Under(index, key), false, id, content))
  {
    hide Files.Blocks, Files.DecodePages, Files.Addressed, Coherent, Data, FirstInFile, FirstIn, FirstFound,
      BTree.LookIn;
    var ids := Candidates(index, key);
    CoherentAddressed(s);
    SearchesAgree(file, s, ids, 0);
    FirstLive(s, ids, 0);
    FirstInIs(Data(s), ids, 0);
    CandidatesAre(index, key);
    AnswersFirst(Data(s), Under(index, key), ids);
  }

  lemma CandidatesAre(index: BTree.IndexFile, key: int32)
    ensures var ids := Under(index, key); Candidates(index, key) == if |ids| <= 16 then ids else ids[..16]
  {
    hide BTree.LookIn;
  }

  lemma CoherentAddressed(s: State)
    requires Coherent(s)
    ensures Files.Addressed(s.disk.index)
  {
    hide BTree.FirstValue, Coherent;
  }

  lemma AnswersFirst(data: map<int32, bytes>, all: seq<int32>, ids: seq<int32>)
    requires ids == if |all| <= 16 then all else all[..16]
    ensures var r := FirstIn(data, ids, 0);
      && (r.Some? ==> Answers(data, all, true, r.value.0, r.value.1))
      && (r.None? ==> forall id, content :: Answers(data, all, false, id, content))
  {
    hide FirstIn;
    FirstInIs(data, ids, 0);
    if FirstIn(data, ids, 0).Some? {
      var j := LeastIn(data, ids, |ids|);
      assert all[j] == ids[j];
      assert forall h :: 0 <= h < j ==> all[h] == ids[h];
    } else {
      forall j | 0 <= j < |all| && j < 16 ensures all[j] !in data {
        assert ids[j] == all[j];
      }
    }
  }

  /** A search answered in this way misses no live id among at most sixteen. */
  lemma SixteenAnswer(data: map<int32, bytes>, ids: seq<int32>, ok: bool, id: int32, content: bytes, x: int32)
    requires Answers(data, ids, ok, id, content) && x in ids && x in data && |ids| <= 16
    ensures ok && id in ids && id in data && data[id] == content
  {
    var k :| 0 <= k < |ids| && ids[k] == x;
  }

  lemma {:induction false} LeastIn(data: map<int32, bytes>, ids: seq<int32>, n: nat) returns (j: nat)
    requires n <= |ids| && exists i :: 0 <= i < n && ids[i] in data
    ensures j < n && ids[j] in data && forall h :: 0 <= h < j ==> ids[h] !in data
    decreases n
  {
    if exists i :: 0 <= i < n - 1 && ids[i] in data {
      j := LeastIn(data, ids, n - 1);
    } else {
      j := n - 1;
    }
  }

  // ---- The search from the header and the index files ----

  /** The header's index names are terminated, and so are the field and a value that is looked up as a string. */
  ghost predicate Askable(h: DBHeader, field: bytes, value: bytes) {
    && h.indexCount <= DB_MAX_INDEXES && NamesTerminated(h.indexes) && Terminated(field)
    && forall k: nat :: FirstNamed(h, Text(field), k) ==>
         if h.indexes[k].indexType == IT_STRING then Terminated(value) else |value| >= 4
  }

  /** What a search by string gives, from the header, the records and the files of the secondary indexes: through the
      first index with the field's name the first live record among the first sixteen entered under the value's key,
      and nothing when no index has the field's name. */
  ghost predicate FoundBy(s: State, files: seq<BTree.IndexFile>, field: bytes, value: bytes, ok: bool, id: int32,
                          content: bytes)
    requires Coherent(s) && |files| == 0x100 && Askable(s.mem.header, field, value)
  {
    var h := s.mem.header;
    && (forall k: nat :: FirstNamed(h, Text(field), k) ==>
          Answers(Data(s), Under(files[h.indexes[k].indexNumber], KeyFor(h.indexes[k].indexType, value)), ok, id,
                  content))
    && ((forall k :: 0 <= k < h.indexCount ==> !EqualButForCase(Text(h.indexes[k].fieldName), Text(field))) ==> !ok)
  }

  /** There are no false negatives: when a live id was entered under the key of a string in the field's index, among at
      most sixteen ids, then searching for any string that compares equal finds a live record entered under that
      key. */
  ghost predicate NothingMissed(s: State, files: seq<BTree.IndexFile>, field: bytes, value: bytes, ok: bool, id: int32,
                                content: bytes)
    requires Coherent(s) && |files| == 0x100 && Askable(s.mem.header, field, value)
  {
    var h := s.mem.header;
    forall k: nat, u: bytes, x: int32 ::
      FirstNamed(h, Text(field), k) && h.indexes[k].indexType == IT_STRING && EqualButForCase(u, Text(value))
      && x in Under(files[h.indexes[k].indexNumber], KeyOf(u))
      && |Under(files[h.indexes[k].indexNumber], KeyOf(u))| <= 16 && x in Data(s) ==>
        ok && id in Under(files[h.indexes[k].indexNumber], KeyOf(u)) && id in Data(s) && Data(s)[id] == content
  }

  lemma NoFalseNegatives(s: State, files: seq<BTree.IndexFile>, field: bytes, value: bytes, ok: bool, id: int32,
                         content: bytes)
    requires Coherent(s) && |files| == 0x100 && Askable(s.mem.header, field, value)
    requires FoundBy(s, files, field, value, ok, id, content)
    ensures NothingMissed(s, files, field, value, ok, id, content)
  {
    hide Coherent, Data, KeyOf, KeyFor, Text, EqualButForCase, Under, Answers;
    var h := s.mem.header;
    forall k: nat, u: bytes, x: int32 |
      FirstNamed(h, Text(field), k) && h.indexes[k].indexType == IT_STRING && EqualButForCase(u, Text(value))
      && x in Under(files[h.indexes[k].indexNumber], KeyOf(u))
      && |Under(files[h.indexes[k].indexNumber], KeyOf(u))| <= 16 && x in Data(s)
      ensures ok && id in Under(files[h.indexes[k].indexNumber], KeyOf(u)) && id in Data(s) && Data(s)[id] == content
    {
      KeyOfString(u, value);
      SixteenAnswer(Data(s), Under(files[h.indexes[k].indexNumber], KeyOf(u)), ok, id, content, x);
    }
  }
}
