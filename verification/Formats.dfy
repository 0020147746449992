/** The formats byte by byte: where each field stands on the pages and in the journal entries that are written. */
module Formats {
  import opened Words
  import opened DbTypes
  import opened Pages
  import opened Disk
  import opened Engine
  import opened Recovery
  import opened Maintenance
  import opened Compaction
  import Allocator
  import BTree
  import DbCodec
  import Leaf

  // ---- The data file ----

  /** The fields of the header page. */
  lemma HeaderLayout(h: DBHeader)
    ensures var b := DbCodec.HeaderBytes(h);
      && b[..4] == h.signature && Word16At(b, 4, h.version) && Word16At(b, 6, h.pageSize)
      && Word16At(b, 8, h.recordSize)
      && Word32At(b, 10, h.recordCount) && Word32At(b, 14, h.nextRecordId) && Word32At(b, 18, h.lastCompacted)
      && b[22] == (if h.journalPending then 1 else 0) && b[23] == h.indexCount && b[24..32] == h.reserved
  {
    hide Word16At, Word32At, DbCodec.HeaderBytes, LE16, LE32;
    var b := DbCodec.HeaderBytes(h);
    HeaderSlices(h);
    HeaderWords(h);
    PlacedWords(b, 4, h.version, 0);
    PlacedWords(b, 6, h.pageSize, 0);
    PlacedWords(b, 8, h.recordSize, 0);
    PlacedWords(b, 10, 0, h.recordCount);
    PlacedWords(b, 14, 0, h.nextRecordId);
    PlacedWords(b, 18, 0, h.lastCompacted);
  }

  lemma HeaderSlices(h: DBHeader)
    ensures var b := DbCodec.HeaderBytes(h);
      && b[..4] == h.signature && b[4..6] == LE16(h.version) && b[6..8] == LE16(h.pageSize)
      && b[8..10] == LE16(h.recordSize)
  {
    hide LE16, LE32, DbCodec.IndexesBytes;
  }

  lemma HeaderWords(h: DBHeader)
    ensures var b := DbCodec.HeaderBytes(h);
      && b[10..14] == LE32(h.recordCount) && b[14..18] == LE32(h.nextRecordId) && b[18..22] == LE32(h.lastCompacted)
      && b[22] == (if h.journalPending then 1 else 0) && b[23] == h.indexCount && b[24..32] == h.reserved
  {
    hide LE16, LE32, DbCodec.IndexesBytes;
  }

  /** The i-th index that the header lists. */
  lemma IndexLayout(h: DBHeader, i: nat)
    requires i < 15
    ensures var b := DbCodec.HeaderBytes(h);
      && b[32 + 32 * i..62 + 32 * i] == h.indexes[i].fieldName
      && b[62 + 32 * i] == h.indexes[i].indexType && b[63 + 32 * i] == h.indexes[i].indexNumber
  {
    hide DbCodec.HeaderFields, DbCodec.IndexesBytes, DbCodec.IndexInfoBytes;
    var b, c := DbCodec.HeaderBytes(h), DbCodec.IndexInfoBytes(h.indexes[i]);
    DbCodec.IndexesBytesAt(h.indexes, i);
    assert b[32 + 32 * i..32 + 32 * i + 32] == DbCodec.IndexesBytes(h.indexes)[32 * i..32 * i + 32] == c;
    InfoLayout(h.indexes[i]);
    assert b[32 + 32 * i..62 + 32 * i] == c[..30];
    assert b[62 + 32 * i] == c[30] && b[63 + 32 * i] == c[31];
  }

  lemma InfoLayout(info: DBIndexInfo)
    ensures var c := DbCodec.IndexInfoBytes(info);
      c[..30] == info.fieldName && c[30] == info.indexType && c[31] == info.indexNumber
  {
  }

  /** The free-list page. */
  lemma FreeListLayout(f: DBFreeList, i: nat)
    requires i < 127
    ensures var b := DbCodec.FreeListBytes(f);
      Word16At(b, 0, f.count) && Word16At(b, 2, f.len) && Word32At(b, 4 + 4 * i, f.slots[i])
  {
    hide LE16, LE32, Word16At, Word32At, Leaf.ValuesBytes;
    var b := DbCodec.FreeListBytes(f);
    assert b[0..2] == LE16(f.count) && b[2..4] == LE16(f.len);
    PlacedWords(b, 0, f.count, 0);
    PlacedWords(b, 2, f.len, 0);
    assert b[4 + 4 * i..4 + 4 * i + 4] == Leaf.ValuesBytes(f.slots)[4 * i..4 * i + 4];
    ValueLayout(f.slots, i);
    PlacedWords(b, 4 + 4 * i, 0, f.slots[i]);
  }

  lemma ValueLayout(vs: seq<int32>, i: nat)
    requires i < |vs|
    ensures Leaf.ValuesBytes(vs)[4 * i..4 * i + 4] == LE32(vs[i])
  {
    hide LE32;
    forall k | 0 <= k < 4 ensures Leaf.ValuesBytes(vs)[4 * i..4 * i + 4][k] == LE32(vs[i])[k] {
      assert (4 * i + k) / 4 == i && (4 * i + k) % 4 == k;
    }
  }

  /** A data page. */
  lemma PageLayout(p: DBPage)
    ensures var b := DbCodec.PageBytes(p);
      Word32At(b, 0, p.id) && b[4] == p.status && b[5] == p.reserved && b[6..] == p.data
  {
    hide LE32, Word32At;
    var b := DbCodec.PageBytes(p);
    assert b[0..4] == LE32(p.id);
    PlacedWords(b, 0, 0, p.id);
  }

  /** The i-th page of a record: its id, status 1 on the first page and 2 on the others, and the bytes from 506 times i
      on, filled up with zeros. */
  lemma RecordPageLayout(id: int32, data: bytes, i: nat, k: nat)
    requires k < 506
    ensures var b := DbCodec.PageBytes(Image(id, data, i));
      && Word32At(b, 0, id) && b[4] == (if i == 0 then 1 else 2) && b[5] == 0
      && b[6 + k] == if 506 * i + k < |data| then data[506 * i + k] else 0
  {
    hide Word32At, DbCodec.PageBytes;
    PageLayout(Image(id, data, i));
    assert DbCodec.PageBytes(Image(id, data, i))[6..][k] == Chunk(data, i)[k];
  }

  /** An empty page is all zeros. */
  lemma EmptyPageLayout()
    ensures DbCodec.PageBytes(EMPTY_PAGE) == seq(512, _ => 0)
  {
    BytesOfWord(0, 0);
  }

  /** A page written behind the end of the file leaves empty pages between, and no page behind it. */
  lemma StoredBeyond(pages: Store, slot: nat, p: DBPage)
    ensures var r := StorePage(pages, slot, p);
      && |r| == (if slot < |pages| then |pages| else slot + 1)
      && forall s :: |pages| <= s < slot ==> r[s] == Page(0, 0, 0, seq(506, _ => 0))
  {
    assert Zeros(506) == seq(506, _ => 0);
  }

  // ---- The journal ----

  lemma JournalLayout(e: DBJournalEntry)
    ensures var b := DbCodec.JournalBytes(e);
      && b[0] == e.operation && Word32At(b, 1, e.pageNum) && Word32At(b, 5, e.recordId) && b[9..516] == e.data
      && Word16At(b, 516, e.checksum)
  {
    hide LE16, LE32, Word16At, Word32At;
    var b := DbCodec.JournalBytes(e);
    assert b[1..5] == LE32(e.pageNum) && b[5..9] == LE32(e.recordId) && b[516..518] == LE16(e.checksum);
    assert b[9..516] == e.data;
    PlacedWords(b, 1, 0, e.pageNum);
    PlacedWords(b, 5, 0, e.recordId);
    PlacedWords(b, 516, e.checksum, 0);
  }

  /** The entry for the i-th page of a record: operation, page number, id, then the page's status and data. */
  predicate Describes(e: DBJournalEntry, op: byte, page: int, id: int32, data: bytes, i: nat) {
    && e.operation == op && e.pageNum == page && e.recordId == id && e.checksum == DbCodec.ComputeChecksum(e)
    && e.data[0] == (if i == 0 then 1 else 2)
    && forall k :: 0 <= k < 506 ==> e.data[1..][k] == if 506 * i + k < |data| then data[506 * i + k] else 0
  }

  lemma EntryDescribes(op: byte, first: int32, id: int32, data: bytes, i: nat)
    requires first + i < 0x8000_0000
    ensures Describes(WriteEntry(op, first, id, data, i), op, first + i, id, data, i)
  {
    hide DbCodec.CoveredBytes;
    SealedChecksum(JournalEntry(op, first + i, id, [StatusOf(i)] + Chunk(data, i), 0));
  }

  lemma SealedChecksum(e: DBJournalEntry)
    ensures var s := DbCodec.Sealed(e);
      s == e.(checksum := s.checksum) && s.checksum == DbCodec.ComputeChecksum(s)
  {
  }

  /** The entry for an emptied page: operation 2, page number and id; its data are zeros. */
  predicate DescribesErasure(e: DBJournalEntry, page: int, id: int32) {
    && e.operation == 2 && e.pageNum == page && e.recordId == id && e.checksum == DbCodec.ComputeChecksum(e)
    && forall k :: 0 <= k < 507 ==> e.data[k] == 0
  }

  lemma ErasureDescribes(first: int32, id: int32, i: nat)
    requires first + i < 0x8000_0000
    ensures DescribesErasure(EraseEntry(first, id, i), first + i, id)
  {
    hide DbCodec.CoveredBytes;
    SealedChecksum(JournalEntry(JO_DELETE, first + i, id, Zeros(507), 0));
  }

  /** The writes that put a record into its pages: in a transaction first an entry for each page, then the pages. */
  predicate Puts(ws: seq<Write>, op: byte, first: int32, id: int32, data: bytes, n: nat, journaling: bool)
    requires first + n <= 0x8000_0000
  {
    var j := if journaling then n else 0;
    && |ws| == j + n
    && (forall i :: 0 <= i < j ==> ws[i].AppendJournal? && Describes(ws[i].entry, op, first + i, id, data, i))
    && (forall i :: 0 <= i < n ==> ws[j..][i] == PutPage(first + i, Image(id, data, i)))
  }

  lemma RecordPuts(mem: Memory, op: byte, first: int32, id: int32, data: bytes, n: uint16)
    requires first + n <= 0x8000_0000
    ensures Puts(RecordWrites(mem, op, first, id, data, n), op, first, id, data, n, Journaling(mem))
  {
    hide Describes, Image, WriteEntry, Journaling;
    var es, ws := WriteEntries(op, first, id, data, n), RecordWrites(mem, op, first, id, data, n);
    var j := if Journaling(mem) then n as int else 0;
    forall i | 0 <= i < j ensures ws[i].AppendJournal? && Describes(ws[i].entry, op, first + i, id, data, i) {
      EntryDescribes(op, first, id, data, i);
      assert ws[i] == JournalWrites(es)[i];
    }
    assert ws[j..] == PageWrites(first, Images(id, data, n));
  }

  /** An update journals its pages as operation 1, in order, before it writes them. */
  lemma UpdateJournals(s: State, id: int32, data: bytes)
    requires Operable(s) && BTree.FirstValue(s.disk.index, id).Some?
    ensures var first, n := BTree.FirstValue(s.disk.index, id).value, PagesPer(s);
      first + n <= 0x8000_0000 && Puts(Update(s, id, data).writes, 1, first, id, data, n, Journaling(s.mem))
  {
    hide Puts, Journaling, Allocator.ListsFile, BTree.FirstValue, RecordWrites;
    SpaceBehind(s, id);
    RecordPuts(s.mem, JO_UPDATE, BTree.FirstValue(s.disk.index, id).value, id, data, PagesPer(s));
  }

  /** An addition journals its pages under the new id as operation 3, in order, before it writes them, after the writes
      of the allocation; then the index, unless it has the entry already, and the header, or nothing more when the
      index has no room. */
  lemma AddJournals(s: State, data: bytes) returns (puts: seq<Write>, rest: seq<Write>)
    requires Operable(s) && Room(s)
    ensures Allocator.Bounded(s.mem.free)
    ensures var a := Allocator.Allocate(s.mem.free, s.disk.pages, PagesPer(s));
      && a.first + PagesPer(s) <= 0x8000_0000
      && Add(s, data).writes == a.writes + puts + rest
      && Puts(puts, 3, a.first, s.mem.header.nextRecordId, data, PagesPer(s), Journaling(s.mem))
    ensures !Add(s, data).ok ==> rest == []
    ensures Add(s, data).ok ==>
      && 1 <= |rest| <= 2 && rest[|rest| - 1] == PutHeader(Add(s, data).mem.header)
      && (|rest| == 2 ==> rest[0].PutIndex? && rest[0].change.LeafWritten?)
  {
    hide Puts, Journaling, Allocator.Allocate, BTree.FirstValue, Spaced, RecordWrites, Leaf.Inserted;
    var id, n := s.mem.header.nextRecordId, PagesPer(s);
    Allocator.AllocateInFile(s.mem.free, s.disk.pages, n);
    var a := Allocator.Allocate(s.mem.free, s.disk.pages, n);
    var mem := s.mem.(header := s.mem.header.(nextRecordId := id + 1), free := a.free);
    SameJournaling(s.mem, mem);
    puts := RecordWrites(mem, JO_ADD, a.first, id, data, n);
    rest := Add(s, data).writes[|a.writes| + |puts|..];
    RecordPuts(mem, JO_ADD, a.first, id, data, n);
  }

  lemma SameJournaling(m: Memory, m': Memory)
    requires m'.journalOpen == m.journalOpen && m'.header.journalPending == m.header.journalPending
    ensures Journaling(m') == Journaling(m)
  {
  }

  /** The writes that empty the pages of a record: in a transaction first an entry for each page, then the pages. */
  predicate Empty(ws: seq<Write>, first: int32, id: int32, n: nat, journaling: bool)
    requires first + n <= 0x8000_0000
  {
    var j := if journaling then n else 0;
    && |ws| == j + n
    && (forall i :: 0 <= i < j ==> ws[i].AppendJournal? && DescribesErasure(ws[i].entry, first + i, id))
    && (forall i :: 0 <= i < n ==> ws[j..][i] == PutPage(first + i, EMPTY_PAGE))
  }

  lemma ErasureEmpties(mem: Memory, first: int32, id: int32, n: uint16)
    requires first + n <= 0x8000_0000
    ensures Empty(EraseWrites(mem, first, id, n), first, id, n, Journaling(mem))
  {
    hide DescribesErasure, EraseEntry, Journaling;
    var es, ws := EraseEntries(first, id, n), EraseWrites(mem, first, id, n);
    var j := if Journaling(mem) then n as int else 0;
    forall i | 0 <= i < j ensures ws[i].AppendJournal? && DescribesErasure(ws[i].entry, first + i, id) {
      ErasureDescribes(first, id, i);
      assert ws[i] == JournalWrites(es)[i];
    }
    assert ws[j..] == PageWrites(first, Empties(n));
  }

  /** A deletion journals its pages as operation 2, in order, before it empties them; then it writes the index, the free
      list and the header. */
  lemma DeleteJournals(s: State, id: int32) returns (empties: seq<Write>, rest: seq<Write>)
    requires Operable(s) && BTree.FirstValue(s.disk.index, id).Some?
    ensures var first := BTree.FirstValue(s.disk.index, id).value;
      && first + PagesPer(s) <= 0x8000_0000
      && Delete(s, id).writes == empties + rest && Empty(empties, first, id, PagesPer(s), Journaling(s.mem))
    ensures var m := Delete(s, id).mem;
      && 2 <= |rest| <= 3 && rest[|rest| - 2..] == [PutFree(m.free), PutHeader(m.header)]
      && (|rest| == 3 ==> rest[0].PutIndex? && rest[0].change.LeafWritten?)
  {
    hide Empty, Journaling, BTree.FirstValue, EraseWrites, Leaf.Deleted, Allocator.Release, Spaced,
      Allocator.ListsFile;
    SpaceBehind(s, id);
    empties := EraseWrites(s.mem, BTree.FirstValue(s.disk.index, id).value, id, PagesPer(s));
    rest := Delete(s, id).writes[|empties|..];
    ErasureEmpties(s.mem, BTree.FirstValue(s.disk.index, id).value, id, PagesPer(s));
  }

  /** After a deletion the list of free pages ends with the first page of the record, when there was room for it. */
  lemma DeleteLists(s: State, id: int32)
    requires Operable(s) && BTree.FirstValue(s.disk.index, id).Some?
    ensures Allocator.Bounded(s.mem.free) && Allocator.Bounded(Delete(s, id).mem.free)
    ensures var f, f', first := s.mem.free, Delete(s, id).mem.free, BTree.FirstValue(s.disk.index, id).value;
      && Allocator.Listed(f') == Allocator.Listed(f) + (if f.len < 127 then [first] else [])
      && f'.count == (f.count as int + PagesPer(s)) % 0x1_0000
  {
    hide BTree.FirstValue, EraseWrites, IndexWrites, Leaf.Deleted, Allocator.Release, Allocator.Listed, Spaced;
    Allocator.ReleasedList(s.mem.free, BTree.FirstValue(s.disk.index, id).value, PagesPer(s));
  }

  // ---- The other writes ----

  /** Recovery ends with the free list, the header without the pending flag, and only then an empty journal. */
  lemma RecoveryEnds(d: Disk)
    requires Replayable(d)
    ensures var o := Replay(d);
      var n := |o.writes|;
      n >= 3 && o.writes[n - 3..] == [PutFree(o.mem.free), PutHeader(o.mem.header), ClearJournal]
      && !o.mem.header.journalPending
  {
    hide RedoWrites, RebuildWrites, Redone, Allocator.Refilled, ActiveCount;
  }

  /** The writes that begin and end a transaction, and those that close a database, in order. */
  lemma BracketWrites(mem: Memory)
    ensures Begin(mem).writes == [ClearJournal, PutHeader(mem.header.(journalPending := true))]
    ensures Commit(mem).writes == [PutHeader(mem.header.(journalPending := false)), ClearJournal]
    ensures CloseWrites(mem) == [PutHeader(mem.header), PutFree(mem.free), PutIndex(BTree.HeaderWritten)]
  {
  }

  /** The file that a compaction copies to begins with an empty free list: a page of zeros. */
  lemma CopyBeginsEmpty()
    ensures DbCodec.FreeListBytes(NoFreePages()) == seq(512, _ => 0)
  {
    NoPages(NoFreePages());
  }

  // ---- Index files ----

  /** The fields of the header page of an index; the rest of the page is zeros. */
  lemma IndexHeaderLayout(h: BTree.Header)
    ensures var b := BTree.HeaderPage(h);
      && b[..4] == h.magic && Word16At(b, 4, h.version) && Word16At(b, 6, h.order) && Word32At(b, 8, h.rootPage)
      && Word32At(b, 12, h.nextFreePage) && Word32At(b, 16, h.pageCount) && b[20..] == Zeros(492)
  {
    hide LE16, LE32, Word16At, Word32At;
    var b := BTree.HeaderPage(h);
    assert b[4..6] == LE16(h.version) && b[6..8] == LE16(h.order);
    assert b[8..12] == LE32(h.rootPage) && b[12..16] == LE32(h.nextFreePage) && b[16..20] == LE32(h.pageCount);
    PlacedWords(b, 4, h.version, 0);
    PlacedWords(b, 6, h.order, 0);
    PlacedWords(b, 8, 0, h.rootPage);
    PlacedWords(b, 12, 0, h.nextFreePage);
    PlacedWords(b, 16, 0, h.pageCount);
  }

  /** The head of a leaf page, and the zeros behind its last entry. */
  lemma LeafLayout(l: Leaf.Leaf)
    requires Leaf.Fits(l.entries)
    ensures var b := Leaf.LeafPage(l);
      && b[0] == l.pageType && Word16At(b, 1, |l.entries|) && Word32At(b, 3, l.nextLeaf)
      && b[7 + Leaf.EntriesSize(l.entries)..] == Zeros(512 - 7 - Leaf.EntriesSize(l.entries))
  {
    hide LE16, LE32, Word16At, Word32At, Leaf.EntriesBytes, Leaf.EntriesSize;
    var b := Leaf.LeafPage(l);
    assert b[1..3] == LE16(|l.entries|) && b[3..7] == LE32(l.nextLeaf);
    PlacedWords(b, 1, |l.entries|, 0);
    PlacedWords(b, 3, 0, l.nextLeaf);
  }

  /** The i-th entry of a leaf page: its key, the number of its values, the values and an overflow page, behind the
      entries before it. */
  lemma EntryLayout(l: Leaf.Leaf, i: nat, j: nat)
    requires Leaf.Fits(l.entries) && i < |l.entries| && j < |l.entries[i].values|
    ensures var b, e, at := Leaf.LeafPage(l), l.entries[i], 7 + Leaf.EntriesSize(l.entries[..i]);
      var n := |e.values|;
      && at + 10 + 4 * n == 7 + Leaf.EntriesSize(l.entries[..i + 1]) <= 512
      && Word32At(b, at, e.key) && Word16At(b, at + 4, n) && Word32At(b, at + 6 + 4 * j, e.values[j])
      && Word32At(b, at + 6 + 4 * n, e.overflow)
  {
    hide LE16, LE32, Word16At, Word32At, Leaf.EntriesBytes, Leaf.EntriesSize, Leaf.EntryBytes, Leaf.LeafPage,
      Leaf.ValuesBytes;
    var b, e, from := Leaf.LeafPage(l), l.entries[i], Leaf.EntriesSize(l.entries[..i]);
    var n, at := |e.values|, 7 + from;
    Leaf.EntriesPrefix(l.entries, i);
    Leaf.EntriesInPage(l, from, Leaf.EntriesSize(l.entries[..i + 1]));
    var c := b[at..at + 10 + 4 * n];
    assert c == Leaf.EntryBytes(e);
    EntryParts(e, j);
    Leaf.SliceOfSlice(b, at, at + 10 + 4 * n, 0, 4);
    Leaf.SliceOfSlice(b, at, at + 10 + 4 * n, 4, 6);
    Leaf.SliceOfSlice(b, at, at + 10 + 4 * n, 6 + 4 * j, 10 + 4 * j);
    Leaf.SliceOfSlice(b, at, at + 10 + 4 * n, 6 + 4 * n, 10 + 4 * n);
    PlacedWords(b, at, 0, e.key);
    PlacedWords(b, at + 4, n, 0);
    PlacedWords(b, at + 6 + 4 * j, 0, e.values[j]);
    PlacedWords(b, at + 6 + 4 * n, 0, e.overflow);
  }

  lemma EntryParts(e: Leaf.Entry, j: nat)
    requires j < |e.values|
    ensures var c, n := Leaf.EntryBytes(e), |e.values|;
      && c[0..4] == LE32(e.key) && c[4..6] == LE16(n) && c[6 + 4 * j..10 + 4 * j] == LE32(e.values[j])
      && c[6 + 4 * n..10 + 4 * n] == LE32(e.overflow)
  {
    hide LE16, LE32, Leaf.ValuesBytes;
    var c, n, vs := Leaf.EntryBytes(e), |e.values|, Leaf.ValuesBytes(e.values);
    ValueLayout(e.values, j);
    assert c[6..6 + 4 * n] == vs;
    assert c[6 + 4 * j..10 + 4 * j] == vs[4 * j..4 * j + 4];
  }

  // ---- The files of a new database ----

  function NewDataFile(size: uint16): seq<bytes> {
    [[86, 68, 66, 0, 1, 0, 0, 2, size % 256, size / 256, 0, 0, 0, 0, 1, 0, 0, 0] + seq(494, _ => 0)]
    + [seq(512, _ => 0)]
  }

  function NewIndexFile(): seq<bytes> {
    [[66, 84, 82, 69, 1, 0, 61, 0, 1, 0, 0, 0, 2, 0, 0, 0, 2, 0, 0, 0] + seq(492, _ => 0)] + [[3] + seq(511, _ => 0)]
  }

  /** The bytes of the two pages of a new data file. */
  lemma CreatedBytes(size: uint16, journal: Option<seq<DBJournalEntry>>)
    ensures var d := Created(size, journal);
      && DbCodec.HeaderBytes(d.header)
         == [86, 68, 66, 0, 1, 0, 0, 2, size % 256, size / 256, 0, 0, 0, 0, 1, 0, 0, 0] + seq(494, _ => 0)
      && DbCodec.FreeListBytes(d.free) == seq(512, _ => 0)
  {
    hide BTree.EmptyLeaf;
    var h := Created(size, journal).header;
    NoIndexes(h.indexes);
    assert DbCodec.HeaderFields(h)
        == [86, 68, 66, 0, 1, 0, 0, 2, size % 256, size / 256, 0, 0, 0, 0, 1, 0, 0, 0] + Zeros(14);
    NoPages(Created(size, journal).free);
  }

  lemma {:induction false} NoIndexes(infos: seq<DBIndexInfo>)
    requires forall i :: 0 <= i < |infos| ==> infos[i] == IndexInfo(Zeros(30), 0, 0)
    ensures DbCodec.IndexesBytes(infos) == Zeros(32 * |infos|)
  {
    if infos != [] {
      NoIndexes(infos[..|infos| - 1]);
    }
  }

  lemma NoPages(f: DBFreeList)
    requires f == FreeList(0, 0, seq(127, _ => 0))
    ensures DbCodec.FreeListBytes(f) == seq(512, _ => 0)
  {
    hide LE32;
    BytesOfWord(0, 0);
    assert Leaf.ValuesBytes(f.slots) == Zeros(508);
  }

  /** The bytes of the two pages of a new index file. */
  lemma CreatedIndexBytes()
    ensures BTree.HeaderPage(BTree.NEW_HEADER)
         == [66, 84, 82, 69, 1, 0, 61, 0, 1, 0, 0, 0, 2, 0, 0, 0, 2, 0, 0, 0] + seq(492, _ => 0)
    ensures Leaf.Fits(BTree.EmptyLeaf().entries) && Leaf.LeafPage(BTree.EmptyLeaf()) == [3] + seq(511, _ => 0)
  {
  }
}
