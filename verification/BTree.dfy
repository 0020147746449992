/** An index file: a header page and one leaf page that every operation reads, changes in memory and writes back. */
module BTree {
  import opened Words
  import opened Leaf

  const PT_LEAF: byte := 3
  const MAGIC: bytes := [66, 84, 82, 69]

  // ---- The header page ----

  datatype HeaderShape = Header(magic: bytes, version: uint16, order: uint16, rootPage: int32, nextFreePage: int32,
    pageCount: int32)
  type Header = h: HeaderShape | |h.magic| == 4 witness Header(Zeros(4), 0, 0, 0, 0, 0)

  function HeaderPage(h: Header): (b: bytes)
    ensures |b| == PAGE_SIZE
  {
    h.magic + LE16(h.version) + LE16(h.order) + LE32(h.rootPage) + LE32(h.nextFreePage) + LE32(h.pageCount) + Zeros(492)
  }

  function DecodeHeader(page: bytes): Header
    requires |page| == PAGE_SIZE
  {
    Header(page[..4], UnLE16(page[4..6]), UnLE16(page[6..8]),
           UnLE32(page[8..12]), UnLE32(page[12..16]), UnLE32(page[16..20]))
  }

  lemma HeaderRoundTrip(h: Header)
    ensures DecodeHeader(HeaderPage(h)) == h
  {
    hide LE16, LE32, UnLE16, UnLE32;
    var b := HeaderPage(h);
    assert b[..4] == h.magic && b[4..6] == LE16(h.version) && b[6..8] == LE16(h.order);
    assert b[8..12] == LE32(h.rootPage) && b[12..16] == LE32(h.nextFreePage) && b[16..20] == LE32(h.pageCount);
    LittleEndianInverse16(h.version, LE16(h.version));
    LittleEndianInverse16(h.order, LE16(h.order));
    LittleEndianInverse32(h.rootPage, LE32(h.rootPage));
    LittleEndianInverse32(h.nextFreePage, LE32(h.nextFreePage));
    LittleEndianInverse32(h.pageCount, LE32(h.pageCount));
  }

  const NEW_HEADER: Header := Header(MAGIC, 1, 61, 1, 2, 2)

  // ---- The leaf in memory ----

  class LeafNode {
    var pageType: byte
    var keyCount: uint16
    var nextLeaf: int32
    const entries: array<Entry>

    ghost predicate Valid()
      reads this, entries
    {
      entries.Length == MAX_KEYS && keyCount <= MAX_KEYS
    }

    ghost function View(): Leaf
      requires Valid()
      reads this, entries
    {
      Leaf(pageType, nextLeaf, entries[..keyCount])
    }

    constructor ()
      ensures Valid() && fresh(entries) && View() == Leaf(0, 0, [])
    {
      pageType, keyCount, nextLeaf := 0, 0, 0;
      entries := new Entry[MAX_KEYS](_ => Entry(0, [], 0));
    }

    /** Opens a slot at `at` by moving the entries from there on up by one. */
    method ShiftUp(at: nat)
      requires Valid() && at <= keyCount < MAX_KEYS
      modifies entries
      ensures entries[..at] == old(entries[..at])
      ensures entries[at + 1..keyCount + 1] == old(entries[at..keyCount])
    {
      var i := keyCount;
      while i > at
        invariant at <= i <= keyCount
        invariant forall j :: 0 <= j <= i ==> entries[j] == old(entries[j])
        invariant forall j :: i < j <= keyCount ==> entries[j] == old(entries[j - 1])
      {
        entries[i] := entries[i - 1];
        i := i - 1;
      }
      ghost var moved, were := entries[at + 1..keyCount + 1], old(entries[at..keyCount]);
      forall k | 0 <= k < |moved| ensures moved[k] == were[k] {
        assert entries[at + 1 + k] == old(entries[at + k]);
      }
    }

    /** Closes the slot at `at` by moving the later entries down by one, and clears the last one. */
    method RemoveAt(at: nat)
      requires Valid() && at < keyCount
      modifies this, entries
      ensures Valid() && pageType == old(pageType) && nextLeaf == old(nextLeaf)
      ensures View().entries == WithoutAt(old(View().entries), at)
    {
      var i := at;
      while i < keyCount - 1
        invariant unchanged(this) && at <= i <= keyCount - 1
        invariant forall j :: 0 <= j < at ==> entries[j] == old(entries[j])
        invariant forall j :: at <= j < i ==> entries[j] == old(entries[j + 1])
        invariant forall j :: i < j < MAX_KEYS ==> entries[j] == old(entries[j])
      {
        entries[i] := entries[i + 1];
        i := i + 1;
      }
      keyCount := keyCount - 1;
      entries[keyCount] := Entry(0, [], 0);
    }
  }

  // ---- SerializeLeaf and DeserializeLeaf ----

  method Clear(buf: array<byte>)
    modifies buf
    ensures forall k :: 0 <= k < buf.Length ==> buf[k] == 0
  {
    for i := 0 to buf.Length
      invariant forall k :: 0 <= k < i ==> buf[k] == 0
    {
      buf[i] := 0;
    }
  }

  method WriteEntry(buf: array<byte>, at: nat, e: Entry)
    requires at + EntrySize(e) <= buf.Length
    modifies buf
    ensures buf[..at + EntrySize(e)] == old(buf[..at]) + EntryBytes(e)
    ensures forall k :: at + EntrySize(e) <= k < buf.Length ==> buf[k] == old(buf[k])
  {
    hide LE32, LE16, ValuesBytes;
    var pos, n := at, |e.values|;
    ghost var before := buf[..at];
    WriteInt32LE(buf, pos, e.key);
    pos := pos + 4;
    WriteUint16LE(buf, pos, n);
    pos := pos + 2;
    ghost var head := LE32(e.key) + LE16(n);
    assert buf[..pos] == before + head;
    assert ValuesBytes(e.values[..0]) == [];
    for j := 0 to n
      invariant pos == at + 6 + 4 * j
      invariant buf[..pos] == before + (head + ValuesBytes(e.values[..j]))
      invariant forall k :: pos <= k < buf.Length ==> buf[k] == old(buf[k])
    {
      WriteInt32LE(buf, pos, e.values[j]);
      pos := pos + 4;
      OneMoreValue(e.values, j);
    }
    assert e.values[..n] == e.values;
    WriteInt32LE(buf, pos, e.overflow);
    assert EntryBytes(e) == head + ValuesBytes(e.values) + LE32(e.overflow);
  }

  /** Writes a leaf to a page buffer and returns the bytes used, or returns 0 when it does not fit. */
  method SerializeLeaf(buf: array<byte>, leaf: LeafNode) returns (size: nat)
    requires buf.Length == PAGE_SIZE && leaf.Valid()
    modifies buf
    ensures size == if Fits(leaf.View().entries) then HEAD_SIZE + EntriesSize(leaf.View().entries) else 0
    ensures size > 0 ==> buf[..] == LeafPage(leaf.View())
  {
    hide LE32, LE16, EntryBytes, HeadBytes, EntriesBytes, EntriesSize;
    Clear(buf);
    ghost var l := leaf.View();
    WriteHead(buf, leaf);
    var pos := 7;
    NoEntries(l.entries[..0]);
    for i := 0 to leaf.keyCount
      invariant pos == HEAD_SIZE + EntriesSize(l.entries[..i]) <= PAGE_SIZE
      invariant buf[..pos] == HeadBytes(l) + EntriesBytes(l.entries[..i])
      invariant forall k :: pos <= k < PAGE_SIZE ==> buf[k] == 0
    {
      var e := leaf.entries[i];
      OneMoreEntry(l.entries, i);
      var entrySize := 4 + 2 + 4 * |e.values| + 4;
      if pos + entrySize > PAGE_SIZE {
        return 0;
      }
      WriteEntry(buf, pos, e);
      pos := pos + entrySize;
    }
    assert l.entries[..leaf.keyCount] == l.entries;
    assert buf[pos..] == Zeros(PAGE_SIZE - pos);
    assert buf[..] == buf[..pos] + buf[pos..];
    size := pos;
  }

  lemma NoEntries(es: seq<Entry>)
    requires es == []
    ensures EntriesSize(es) == 0 && EntriesBytes(es) == []
  {
  }

  lemma OneMoreEntry(es: seq<Entry>, i: nat)
    requires i < |es|
    ensures EntriesSize(es[..i + 1]) == EntriesSize(es[..i]) + EntrySize(es[i]) <= EntriesSize(es)
    ensures EntriesBytes(es[..i + 1]) == EntriesBytes(es[..i]) + EntryBytes(es[i])
  {
    EntriesPrefix(es, i);
    assert es[..i + 1][..i] == es[..i];
  }

  method WriteHead(buf: array<byte>, leaf: LeafNode)
    requires buf.Length == PAGE_SIZE && leaf.Valid()
    modifies buf
    ensures buf[..HEAD_SIZE] == HeadBytes(leaf.View())
    ensures forall k :: HEAD_SIZE <= k < PAGE_SIZE ==> buf[k] == old(buf[k])
  {
    hide LE32, LE16;
    buf[0] := leaf.pageType;
    WriteUint16LE(buf, 1, leaf.keyCount);
    WriteInt32LE(buf, 3, leaf.nextLeaf);
  }

  method ReadEntry(page: bytes, at: nat) returns (ok: bool, e: Entry, next: nat)
    requires |page| == PAGE_SIZE
    ensures ok <==> DecodeEntry(page, at).Some?
    ensures ok ==> DecodeEntry(page, at) == Some((e, next))
  {
    hide UnLE16, UnLE32;
    ok, e, next := false, Entry(0, [], 0), at;
    var pos := at;
    if pos + 10 > PAGE_SIZE {
      return;
    }
    var key := UnLE32(page[pos..pos + 4]);
    pos := pos + 4;
    var count := UnLE16(page[pos..pos + 2]);
    pos := pos + 2;
    if count > MAX_VALUES {
      return;
    }
    if pos + count * 4 + 4 > PAGE_SIZE {
      return;
    }
    var values: seq<int32> := [];
    for j := 0 to count
      invariant pos == at + 6 + 4 * j && |values| == j
      invariant forall k :: 0 <= k < j ==> values[k] == UnLE32(page[at + 6 + 4 * k..at + 6 + 4 * k + 4])
    {
      values := values + [UnLE32(page[pos..pos + 4])];
      pos := pos + 4;
    }
    assert values == ReadValues(page, at + 6, count);
    ok, e, next := true, Entry(key, values, UnLE32(page[pos..pos + 4])), pos + 4;
  }

  lemma {:induction false} FailureStays(page: bytes, i: nat, n: nat)
    requires i <= n && DecodeEntries(page, i).None?
    ensures DecodeEntries(page, n).None?
    decreases n
  {
    if i < n {
      FailureStays(page, i, n - 1);
    }
  }

  /** Reads a leaf from a page, or fails on a page that does not hold one. */
  method DeserializeLeaf(page: bytes, leaf: LeafNode) returns (ok: bool)
    requires |page| == PAGE_SIZE && leaf.Valid()
    modifies leaf, leaf.entries
    ensures leaf.Valid()
    ensures ok <==> DecodeLeaf(page).Some?
    ensures ok ==> DecodeLeaf(page) == Some(leaf.View())
  {
    hide UnLE16, UnLE32, DecodeEntry;
    leaf.pageType := page[0];
    var count := UnLE16(page[1..3]);
    leaf.nextLeaf := UnLE32(page[3..7]);
    leaf.keyCount := 0;
    if count > MAX_KEYS {
      return false;
    }
    leaf.keyCount := count;
    var pos := 7;
    for i := 0 to count
      invariant leaf.Valid() && leaf.keyCount == count
      invariant leaf.pageType == page[0] && leaf.nextLeaf == UnLE32(page[3..7])
      invariant DecodeEntries(page, i) == Some((leaf.entries[..i], pos))
    {
      var read, e, next := ReadEntry(page, pos);
      if !read {
        FailureStays(page, i + 1, count);
        return false;
      }
      leaf.entries[i] := e;
      pos := next;
      assert leaf.entries[..i + 1] == leaf.entries[..i] + [e];
    }
    return true;
  }

  // ---- The file ----

  /** What an index file holds: no valid header page, a header page without a readable leaf, or a leaf. */
  datatype IndexFile = NoHeader | NoLeaf | Ready(leaf: Leaf)

  /** The atomic changes to an index file. */
  datatype IndexWrite = Truncated | HeaderWritten | LeafWritten(leaf: Leaf)

  function ApplyIndex(f: IndexFile, w: IndexWrite): IndexFile {
    match w
    case Truncated => NoHeader
    case HeaderWritten => if f.NoHeader? then NoLeaf else f
    case LeafWritten(l) => if f.NoHeader? then NoHeader else Ready(l)
  }

  /** The values of a key in an index file; none when the leaf cannot be read. */
  function LookIn(f: IndexFile, key: int32): Option<seq<int32>> {
    if f.Ready? then Found(f.leaf.entries, key) else None
  }

  /** The first value of a key in an index file. */
  function FirstValue(f: IndexFile, key: int32): Option<int32> {
    var vs := LookIn(f, key);
    if vs.Some? && vs.value != [] then Some(vs.value[0]) else None
  }

  function EmptyLeaf(): Leaf {
    Leaf(PT_LEAF, 0, [])
  }

  function DecodeFile(file: seq<bytes>): IndexFile
    requires forall p :: p in file ==> |p| == PAGE_SIZE
  {
    if |file| == 0 || DecodeHeader(file[0]).magic != MAGIC then NoHeader
    else if |file| == 1 || DecodeLeaf(file[1]).None? then NoLeaf
    else Ready(DecodeLeaf(file[1]).value)
  }

  /** An index file and the handle through which it is used. */
  class BTree {
    var file: seq<bytes>
    var header: Header
    var isOpen: bool
    /** Every atomic change made to the file so far. */
    ghost var log: seq<IndexWrite>

    ghost predicate Paged()
      reads this
    {
      forall p :: p in file ==> |p| == PAGE_SIZE
    }

    /** The handle's copy of the header page is the one in the file; the root never moves from page 1. */
    ghost predicate Valid()
      reads this
    {
      && Paged()
      && (isOpen ==> |file| > 0 && header == DecodeHeader(file[0]) && header.magic == MAGIC)
      && (|file| > 0 ==> DecodeHeader(file[0]).rootPage == 1)
    }

    ghost function View(): IndexFile
      requires Paged()
      reads this
    {
      DecodeFile(file)
    }

    /** The entries that the operations of an open tree work on. */
    ghost predicate Readable()
      reads this
    {
      Valid() && isOpen && View().Ready?
    }

    ghost function Entries(): seq<Entry>
      requires Readable()
      reads this
    {
      View().leaf.entries
    }

    constructor ()
      ensures Valid() && !isOpen && View() == NoHeader && log == []
    {
      file, header, isOpen, log := [], NEW_HEADER, false, [];
    }

    /** Creates the file anew: a header page and an empty leaf. */
    method CreateBTree()
      requires Valid() && !isOpen
      modifies this
      ensures Valid() && !isOpen && View() == Ready(EmptyLeaf())
      ensures log == old(log) + [Truncated, HeaderWritten, LeafWritten(EmptyLeaf())]
      ensures Fits(EmptyLeaf().entries) && file == [HeaderPage(NEW_HEADER), LeafPage(EmptyLeaf())]
    {
      hide HeaderPage, LeafPage, DecodeLeaf, DecodeHeader, DecodeFile, EntriesSize;
      EmptyFile();
      file := [];
      log := log + [Truncated];
      assert Fits([]) by {
        NoEntries([]);
      }
      file := [HeaderPage(NEW_HEADER)];
      log := log + [HeaderWritten];
      var root := new LeafNode();
      root.pageType := PT_LEAF;
      var page := new byte[PAGE_SIZE];
      var size := SerializeLeaf(page, root);
      LeafRoundTrip(EmptyLeaf());
      CreatedFile(page[..]);
      file := file + [page[..]];
      log := log + [LeafWritten(EmptyLeaf())];
    }

    static lemma EmptyFile()
      ensures DecodeFile([]) == NoHeader
    {
    }

    static lemma CreatedFile(page: bytes)
      requires |page| == PAGE_SIZE && DecodeLeaf(page) == Some(EmptyLeaf())
      ensures DecodeHeader(HeaderPage(NEW_HEADER)).rootPage == 1
      ensures DecodeFile([HeaderPage(NEW_HEADER), page]) == Ready(EmptyLeaf())
      ensures [HeaderPage(NEW_HEADER)] + [page] == [HeaderPage(NEW_HEADER), page]
    {
      hide HeaderPage, DecodeHeader, DecodeLeaf;
      HeaderRoundTrip(NEW_HEADER);
    }

    method OpenBTree() returns (ok: bool)
      requires Valid()
      modifies this`header, this`isOpen
      ensures Valid() && isOpen == ok
      ensures ok <==> View() != NoHeader
    {
      isOpen := false;
      if |file| == 0 {
        return false;
      }
      header := DecodeHeader(file[0]);
      if header.magic != MAGIC {
        return false;
      }
      isOpen := true;
      return true;
    }

    /** Writes the header page back and closes the handle. */
    method CloseBTree()
      requires Valid()
      modifies this
      ensures Valid() && !isOpen && View() == old(View())
      ensures old(isOpen) ==> View() != NoHeader
      ensures log == old(log) + if old(isOpen) then [HeaderWritten] else []
    {
      if !isOpen {
        return;
      }
      HeaderRoundTrip(header);
      file := file[0 := HeaderPage(header)];
      log := log + [HeaderWritten];
      isOpen := false;
    }

    method ReadRootLeaf(leaf: LeafNode) returns (ok: bool)
      requires Valid() && isOpen && leaf.Valid()
      modifies leaf, leaf.entries
      ensures leaf.Valid()
      ensures ok <==> Readable()
      ensures ok ==> View() == Ready(leaf.View()) && Fits(leaf.View().entries)
    {
      if header.rootPage >= |file| {
        return false;
      }
      ok := DeserializeLeaf(file[header.rootPage], leaf);
      DecodedFits(file[1], UnLE16(file[1][1..3]));
    }

    /** Writes the leaf if it fits its page; otherwise the page stays as it was. */
    method WriteRootLeaf(leaf: LeafNode) returns (ok: bool)
      requires Readable() && leaf.Valid()
      modifies this`file, this`log
      ensures Valid() && isOpen && View().Ready?
      ensures ok <==> Fits(leaf.View().entries)
      ensures View() == if ok then Ready(leaf.View()) else old(View())
      ensures !ok ==> file == old(file)
      ensures log == old(log) + if ok then [LeafWritten(leaf.View())] else []
    {
      hide LeafPage, DecodeLeaf, EntriesSize, DecodeHeader;
      var page := new byte[PAGE_SIZE];
      var size := SerializeLeaf(page, leaf);
      if size == 0 {
        return false;
      }
      LeafRoundTrip(leaf.View());
      file := file[1 := page[..]];
      log := log + [LeafWritten(leaf.View())];
      return true;
    }

    /** FindEntryIndex: the search that stops at the first larger key. */
    static method FindEntryIndex(leaf: LeafNode, key: int32) returns (idx: int)
      requires leaf.Valid()
      ensures idx == FindIndex(leaf.View().entries, key)
    {
      for i := 0 to leaf.keyCount
        invariant Search(leaf.View().entries, key, 0) == Search(leaf.View().entries, key, i)
      {
        if leaf.entries[i].key == key {
          return i;
        }
        if leaf.entries[i].key > key {
          return -1;
        }
      }
      return -1;
    }

    /** Adds a value to a key. */
    method Insert(key: int32, value: int32) returns (ok: bool)
      requires Valid()
      modifies this`file, this`log
      ensures Valid() && View().Ready? == old(View().Ready?)
      ensures ok <==> old(Readable()) && Inserted(old(Entries()), key, value).Some?
      ensures ok ==> View() == Ready(old(View()).leaf.(entries := Inserted(old(Entries()), key, value).value))
      ensures !ok ==> View() == old(View()) && file == old(file)
      ensures log == old(log) + if View() == old(View()) then [] else [LeafWritten(View().leaf)]
    {
      hide DecodeFile, Fits, PositionFrom, InsertAt;
      if !isOpen {
        return false;
      }
      var leaf := new LeafNode();
      var read := ReadRootLeaf(leaf);
      if !read {
        return false;
      }
      ghost var es := leaf.View().entries;
      var idx := FindEntryIndex(leaf, key);
      if idx >= 0 {
        var present := HasValue(leaf.entries[idx], value);
        if present {
          return true;
        }
        if |leaf.entries[idx].values| >= MAX_VALUES {
          return false;
        }
        leaf.entries[idx] := leaf.entries[idx].(values := leaf.entries[idx].values + [value]);
        assert leaf.View().entries == es[idx := es[idx].(values := es[idx].values + [value])];
        ok := WriteRootLeaf(leaf);
        return;
      }
      if leaf.keyCount >= MAX_KEYS {
        return false;
      }
      InsertEntry(leaf, key, value);
      ok := WriteRootLeaf(leaf);
    }

    static method HasValue(entry: Entry, value: int32) returns (found: bool)
      ensures found <==> value in entry.values
    {
      for i := 0 to |entry.values|
        invariant value !in entry.values[..i]
      {
        if entry.values[i] == value {
          return true;
        }
      }
      return false;
    }

    /** The place of a new key in the key order. */
    static method FindPosition(leaf: LeafNode, key: int32) returns (p: nat)
      requires leaf.Valid()
      ensures p == PositionFrom(leaf.View().entries, key, 0)
    {
      ghost var es := leaf.View().entries;
      for i := 0 to leaf.keyCount
        invariant PositionFrom(es, key, 0) == PositionFrom(es, key, i)
      {
        if leaf.entries[i].key > key {
          return i;
        }
      }
      return leaf.keyCount;
    }

    /** Puts a new entry at its place in the key order. */
    static method InsertEntry(leaf: LeafNode, key: int32, value: int32)
      requires leaf.Valid() && leaf.keyCount < MAX_KEYS
      modifies leaf, leaf.entries
      ensures leaf.Valid() && leaf.pageType == old(leaf.pageType) && leaf.nextLeaf == old(leaf.nextLeaf)
      ensures var es := old(leaf.View().entries);
        leaf.View().entries == InsertAt(es, PositionFrom(es, key, 0), Entry(key, [value], 0))
    {
      hide InsertAt, PositionFrom;
      ghost var es := leaf.View().entries;
      var insertPos := FindPosition(leaf, key);
      leaf.ShiftUp(insertPos);
      leaf.entries[insertPos] := Entry(key, [value], 0);
      leaf.keyCount := leaf.keyCount + 1;
      InsertedSlices(es, insertPos, Entry(key, [value], 0), leaf.View().entries);
    }

    static lemma InsertedSlices(es: seq<Entry>, at: nat, e: Entry, r: seq<Entry>)
      requires at <= |es| && |r| == |es| + 1
      requires r[..at] == es[..at] && r[at] == e && r[at + 1..] == es[at..]
      ensures r == InsertAt(es, at, e)
    {
      assert r == r[..at] + [r[at]] + r[at + 1..];
    }

    /** Copies at most `maxValues` of a key's values. */
    method Find(key: int32, values: array<int32>, maxValues: nat) returns (ok: bool, count: nat)
      requires Valid() && maxValues <= values.Length
      modifies values
      ensures ok <==> isOpen && LookIn(View(), key).Some?
      ensures ok ==>
        var vs := LookIn(View(), key).value;
        count == (if |vs| < maxValues then |vs| else maxValues) && values[..count] == vs[..count]
      ensures !ok ==> count == 0
    {
      hide DecodeFile, EntriesSize, Search;
      ok, count := false, 0;
      if !isOpen {
        return;
      }
      var leaf := new LeafNode();
      var read := ReadRootLeaf(leaf);
      if !read {
        return;
      }
      var idx := FindEntryIndex(leaf, key);
      if idx < 0 {
        return;
      }
      var entry := leaf.entries[idx];
      var n := |entry.values|;
      if n > maxValues {
        n := maxValues;
      }
      for i := 0 to n
        invariant values[..i] == entry.values[..i]
      {
        values[i] := entry.values[i];
      }
      ok, count := true, n;
    }

    /** Removes a key with all its values. */
    method Delete(key: int32) returns (ok: bool)
      requires Valid()
      modifies this`file, this`log
      ensures Valid() && View().Ready? == old(View().Ready?)
      ensures ok <==> old(Readable()) && Deleted(old(Entries()), key).Some?
      ensures ok ==> View() == Ready(old(View()).leaf.(entries := Deleted(old(Entries()), key).value))
      ensures !ok ==> View() == old(View())
      ensures log == old(log) + if ok then [LeafWritten(View().leaf)] else []
    {
      hide DecodeFile, EntriesSize, WithoutAt, Search;
      if !isOpen {
        return false;
      }
      var leaf := new LeafNode();
      var read := ReadRootLeaf(leaf);
      if !read {
        return false;
      }
      var idx := FindEntryIndex(leaf, key);
      if idx < 0 {
        return false;
      }
      SizeOfRemoval(leaf.View().entries, idx);
      leaf.RemoveAt(idx);
      ok := WriteRootLeaf(leaf);
    }

    /** Removes one value of a key, and the key with its last value. */
    method DeleteValue(key: int32, value: int32) returns (ok: bool)
      requires Valid()
      modifies this`file, this`log
      ensures Valid() && View().Ready? == old(View().Ready?)
      ensures ok <==> old(Readable()) && ValueDeleted(old(Entries()), key, value).Some?
      ensures ok ==> View() == Ready(old(View()).leaf.(entries := ValueDeleted(old(Entries()), key, value).value))
      ensures !ok ==> View() == old(View())
      ensures log == old(log) + if ok then [LeafWritten(View().leaf)] else []
    {
      hide DecodeFile, EntriesSize, WithoutAt, Search, PositionOf;
      if !isOpen {
        return false;
      }
      var leaf := new LeafNode();
      var read := ReadRootLeaf(leaf);
      if !read {
        return false;
      }
      ghost var es := leaf.View().entries;
      var idx := FindEntryIndex(leaf, key);
      if idx < 0 {
        return false;
      }
      var found, rest := RemoveValue(leaf.entries[idx], value);
      if !found {
        return false;
      }
      SizeOfUpdate(es, idx, es[idx].(values := rest.values));
      SizeOfRemoval(es, idx);
      if |rest.values| == 0 {
        leaf.RemoveAt(idx);
      } else {
        leaf.entries[idx] := rest;
        assert leaf.View().entries == es[idx := rest];
      }
      ok := WriteRootLeaf(leaf);
    }

    /** The values of an entry with the first occurrence of one removed. */
    static method RemoveValue(entry: Entry, value: int32) returns (found: bool, rest: Entry)
      ensures found <==> value in entry.values
      ensures found ==> rest == entry.(values := WithoutAt(entry.values, PositionOf(entry.values, value)))
    {
      found, rest := false, entry;
      var i := 0;
      while i < |entry.values|
        invariant 0 <= i <= |entry.values| && value !in entry.values[..i]
      {
        if entry.values[i] == value {
          found := true;
          break;
        }
        i := i + 1;
      }
      if !found {
        return;
      }
      FirstPosition(entry.values, value, i);
      rest := entry.(values := WithoutAt(entry.values, i));
    }

    static lemma FirstPosition(vs: seq<int32>, value: int32, i: nat)
      requires i < |vs| && vs[i] == value && value !in vs[..i]
      ensures PositionOf(vs, value) == i
    {
      var p := PositionOf(vs, value);
      forall j | 0 <= j < i ensures vs[j] != value {
        assert vs[j] == vs[..i][j];
      }
      forall j | 0 <= j < p ensures vs[j] != value {
        assert vs[j] == vs[..p][j];
      }
    }
  }
}
