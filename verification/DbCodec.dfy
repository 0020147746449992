/** The byte layouts of pages, the free list, the header and journal entries. */
module DbCodec {
  import opened Words
  import opened DbTypes
  import Crc
  import Leaf

  // ---- Pages ----

  function PageBytes(p: DBPage): (b: bytes)
    ensures |b| == DB_PAGE_SIZE
  {
    LE32(p.id) + [p.status, p.reserved] + p.data
  }

  function DecodePage(b: bytes): DBPage
    requires |b| == DB_PAGE_SIZE
  {
    Page(UnLE32(b[..4]), b[4], b[5], b[6..])
  }

  /** Pages and 512-byte blocks correspond one to one. */
  lemma PageRoundTrip(p: DBPage, b: bytes)
    requires |b| == DB_PAGE_SIZE
    ensures DecodePage(PageBytes(p)) == p
    ensures PageBytes(DecodePage(b)) == b
  {
    hide LE32, UnLE32;
    LittleEndianInverse32(p.id, b[..4]);
    LittleEndianInverse32(p.id, PageBytes(p)[..4]);
    assert PageBytes(p)[..4] == LE32(p.id) && PageBytes(p)[6..] == p.data;
    assert b == b[..4] + [b[4], b[5]] + b[6..];
  }

  method SerializePage(page: DBPage, buf: array<byte>)
    requires buf.Length == DB_PAGE_SIZE
    modifies buf
    ensures buf[..] == PageBytes(page)
  {
    hide LE32;
    WriteInt32LE(buf, 0, page.id);
    buf[4] := page.status;
    buf[5] := page.reserved;
    assert buf[..6] == LE32(page.id) + [page.status, page.reserved];
    CopyInto(buf, 6, page.data);
    assert buf[..] == buf[..6 + 506];
  }

  // ---- The free list ----

  function FreeListBytes(f: DBFreeList): (b: bytes)
    ensures |b| == DB_PAGE_SIZE
  {
    LE16(f.count) + LE16(f.len) + Leaf.ValuesBytes(f.slots)
  }

  function DecodeFreeList(b: bytes): DBFreeList
    requires |b| == DB_PAGE_SIZE
  {
    FreeList(UnLE16(b[..2]), UnLE16(b[2..4]), Leaf.ReadValues(b, 4, DB_MAX_FREE_PAGES))
  }

  lemma FreeListRoundTrip(f: DBFreeList)
    ensures DecodeFreeList(FreeListBytes(f)) == f
  {
    hide LE16, UnLE16, Leaf.ValuesBytes, Leaf.ReadValues;
    var b := FreeListBytes(f);
    assert b[..2] == LE16(f.count) && b[2..4] == LE16(f.len) && b[4..4 + 4 * |f.slots|] == Leaf.ValuesBytes(f.slots);
    LittleEndianInverse16(f.count, LE16(f.count));
    LittleEndianInverse16(f.len, LE16(f.len));
    Leaf.ValuesRead(b, 4, f.slots);
  }

  method SerializeFreeList(f: DBFreeList, buf: array<byte>)
    requires buf.Length == DB_PAGE_SIZE
    modifies buf
    ensures buf[..] == FreeListBytes(f)
  {
    hide LE16, LE32, Leaf.ValuesBytes;
    WriteUint16LE(buf, 0, f.count);
    WriteUint16LE(buf, 2, f.len);
    ghost var head := LE16(f.count) + LE16(f.len);
    assert buf[..4] == head;
    assert Leaf.ValuesBytes(f.slots[..0]) == [];
    for i := 0 to DB_MAX_FREE_PAGES
      invariant buf[..4 + 4 * i] == head + Leaf.ValuesBytes(f.slots[..i])
    {
      WriteInt32LE(buf, 4 + i * 4, f.slots[i]);
      Leaf.OneMoreValue(f.slots, i);
    }
    assert f.slots[..DB_MAX_FREE_PAGES] == f.slots && buf[..] == buf[..4 + 4 * DB_MAX_FREE_PAGES];
  }

  // ---- The header ----

  function IndexInfoBytes(i: DBIndexInfo): (b: bytes)
    ensures |b| == 32
  {
    i.fieldName + [i.indexType, i.indexNumber]
  }

  function DecodeIndexInfo(b: bytes): DBIndexInfo
    requires |b| == 32
  {
    IndexInfo(b[..30], b[30], b[31])
  }

  function IndexesBytes(infos: seq<DBIndexInfo>): (b: bytes)
    ensures |b| == 32 * |infos|
  {
    if infos == [] then [] else IndexesBytes(infos[..|infos| - 1]) + IndexInfoBytes(infos[|infos| - 1])
  }

  function HeaderFields(h: DBHeader): (b: bytes)
    ensures |b| == 32
  {
    h.signature + LE16(h.version) + LE16(h.pageSize) + LE16(h.recordSize) + LE32(h.recordCount) + LE32(h.nextRecordId)
    + LE32(h.lastCompacted) + [if h.journalPending then 1 else 0, h.indexCount] + h.reserved
  }

  function HeaderBytes(h: DBHeader): (b: bytes)
    ensures |b| == DB_PAGE_SIZE
  {
    HeaderFields(h) + IndexesBytes(h.indexes)
  }

  function DecodeHeader(b: bytes): DBHeader
    requires |b| == DB_PAGE_SIZE
  {
    Header(b[..4], UnLE16(b[4..6]), UnLE16(b[6..8]), UnLE16(b[8..10]), UnLE32(b[10..14]), UnLE32(b[14..18]),
           UnLE32(b[18..22]), b[22] != 0, b[23], b[24..32],
           seq(15, i requires 0 <= i < 15 => DecodeIndexInfo(b[32 + 32 * i..32 + 32 * i + 32])))
  }

  method SerializeHeader(h: DBHeader, buf: array<byte>)
    requires buf.Length == DB_PAGE_SIZE
    modifies buf
    ensures buf[..] == HeaderBytes(h)
  {
    hide LE16, LE32, IndexesBytes, IndexInfoBytes, HeaderFields;
    SerializeHeaderFields(h, buf);
    NoIndexes(h.indexes[..0]);
    for i := 0 to DB_MAX_INDEXES
      invariant buf[..32 + 32 * i] == HeaderFields(h) + IndexesBytes(h.indexes[..i])
    {
      SerializeIndexInfo(h.indexes[i], buf, 32 + i * 32);
      OneMoreIndex(h.indexes, i);
    }
    assert h.indexes[..DB_MAX_INDEXES] == h.indexes && buf[..] == buf[..32 + 32 * DB_MAX_INDEXES];
  }

  method SerializeHeaderFields(h: DBHeader, buf: array<byte>)
    requires buf.Length == DB_PAGE_SIZE
    modifies buf
    ensures buf[..32] == HeaderFields(h)
  {
    hide LE16, LE32;
    CopyInto(buf, 0, h.signature);
    WriteUint16LE(buf, 4, h.version);
    WriteUint16LE(buf, 6, h.pageSize);
    WriteUint16LE(buf, 8, h.recordSize);
    ghost var head := buf[..10];
    assert head == h.signature + LE16(h.version) + LE16(h.pageSize) + LE16(h.recordSize);
    WriteInt32LE(buf, 10, h.recordCount);
    WriteInt32LE(buf, 14, h.nextRecordId);
    WriteInt32LE(buf, 18, h.lastCompacted);
    ghost var words := buf[..22];
    assert words == head + LE32(h.recordCount) + LE32(h.nextRecordId) + LE32(h.lastCompacted);
    buf[22] := if h.journalPending then 1 else 0;
    buf[23] := h.indexCount;
    assert buf[..24] == words + [if h.journalPending then 1 else 0, h.indexCount];
    CopyInto(buf, 24, h.reserved);
  }

  method SerializeIndexInfo(info: DBIndexInfo, buf: array<byte>, at: nat)
    requires at + 32 <= buf.Length
    modifies buf
    ensures buf[..at + 32] == old(buf[..at]) + IndexInfoBytes(info)
  {
    CopyInto(buf, at, info.fieldName);
    buf[at + 30] := info.indexType;
    buf[at + 31] := info.indexNumber;
    assert buf[..at + 32] == buf[..at + 30] + [info.indexType, info.indexNumber];
  }

  lemma NoIndexes(infos: seq<DBIndexInfo>)
    requires infos == []
    ensures IndexesBytes(infos) == []
  {
  }

  lemma OneMoreIndex(infos: seq<DBIndexInfo>, i: nat)
    requires i < |infos|
    ensures IndexesBytes(infos[..i + 1]) == IndexesBytes(infos[..i]) + IndexInfoBytes(infos[i])
  {
    assert infos[..i + 1][..i] == infos[..i];
  }

  lemma {:induction false} IndexesBytesAt(infos: seq<DBIndexInfo>, i: nat)
    requires i < |infos|
    ensures IndexesBytes(infos)[32 * i..32 * i + 32] == IndexInfoBytes(infos[i])
    decreases |infos|
  {
    if i < |infos| - 1 {
      IndexesBytesAt(infos[..|infos| - 1], i);
    }
  }

  lemma HeaderRoundTrip(h: DBHeader)
    ensures DecodeHeader(HeaderBytes(h)) == h
  {
    hide LE16, LE32, UnLE16, UnLE32, IndexesBytes, IndexInfoBytes;
    var b := HeaderBytes(h);
    assert b[..4] == h.signature && b[4..6] == LE16(h.version) && b[6..8] == LE16(h.pageSize)
      && b[8..10] == LE16(h.recordSize);
    assert b[10..14] == LE32(h.recordCount) && b[14..18] == LE32(h.nextRecordId) && b[18..22] == LE32(h.lastCompacted);
    assert b[24..32] == h.reserved;
    LittleEndianInverse16(h.version, LE16(h.version));
    LittleEndianInverse16(h.pageSize, LE16(h.pageSize));
    LittleEndianInverse16(h.recordSize, LE16(h.recordSize));
    LittleEndianInverse32(h.recordCount, LE32(h.recordCount));
    LittleEndianInverse32(h.nextRecordId, LE32(h.nextRecordId));
    LittleEndianInverse32(h.lastCompacted, LE32(h.lastCompacted));
    forall i | 0 <= i < 15 ensures DecodeHeader(b).indexes[i] == h.indexes[i] {
      IndexesBytesAt(h.indexes, i);
      assert b[32 + 32 * i..32 + 32 * i + 32] == IndexesBytes(h.indexes)[32 * i..32 * i + 32];
      IndexInfoRoundTrip(h.indexes[i]);
    }
  }

  lemma IndexInfoRoundTrip(i: DBIndexInfo)
    ensures DecodeIndexInfo(IndexInfoBytes(i)) == i
  {
    assert IndexInfoBytes(i)[..30] == i.fieldName;
  }

  // ---- Journal entries ----

  /** The bytes that the checksum covers. */
  function CoveredBytes(e: DBJournalEntry): (b: bytes)
    ensures |b| == 516
  {
    [e.operation] + LE32(e.pageNum) + LE32(e.recordId) + e.data
  }

  function JournalBytes(e: DBJournalEntry): (b: bytes)
    ensures |b| == DB_JOURNAL_ENTRY_SIZE
  {
    CoveredBytes(e) + LE16(e.checksum)
  }

  function DecodeJournal(b: bytes): DBJournalEntry
    requires |b| == DB_JOURNAL_ENTRY_SIZE
  {
    JournalEntry(b[0], UnLE32(b[1..5]), UnLE32(b[5..9]), b[9..516], UnLE16(b[516..518]))
  }

  /** Journal entries and 518-byte records correspond one to one. */
  lemma JournalRoundTrip(e: DBJournalEntry, b: bytes)
    requires |b| == DB_JOURNAL_ENTRY_SIZE
    ensures DecodeJournal(JournalBytes(e)) == e
    ensures JournalBytes(DecodeJournal(b)) == b
    ensures CoveredBytes(DecodeJournal(b)) == b[..516]
  {
    hide LE16, LE32, UnLE16, UnLE32;
    var c := JournalBytes(e);
    assert c[1..5] == LE32(e.pageNum) && c[5..9] == LE32(e.recordId) && c[9..516] == e.data
      && c[516..518] == LE16(e.checksum);
    LittleEndianInverse32(e.pageNum, c[1..5]);
    LittleEndianInverse32(e.recordId, c[5..9]);
    LittleEndianInverse16(e.checksum, c[516..518]);
    LittleEndianInverse32(e.pageNum, b[1..5]);
    LittleEndianInverse32(e.recordId, b[5..9]);
    LittleEndianInverse16(e.checksum, b[516..518]);
    assert b == b[..516] + b[516..518];
    assert b[..516] == [b[0]] + b[1..5] + b[5..9] + b[9..516];
  }

  method SerializeJournalEntry(e: DBJournalEntry, buf: array<byte>)
    requires buf.Length == DB_JOURNAL_ENTRY_SIZE
    modifies buf
    ensures buf[..] == JournalBytes(e)
  {
    hide LE16, CoveredBytes;
    SerializeCovered(e, buf);
    WriteUint16LE(buf, 516, e.checksum);
    assert buf[..] == buf[..518];
  }

  method SerializeCovered(e: DBJournalEntry, buf: array<byte>)
    requires buf.Length >= 516
    modifies buf
    ensures buf[..516] == CoveredBytes(e)
  {
    hide LE32;
    buf[0] := e.operation;
    assert buf[..1] == [e.operation];
    WriteInt32LE(buf, 1, e.pageNum);
    WriteInt32LE(buf, 5, e.recordId);
    CopyInto(buf, 9, e.data);
  }

  /** The CRC-16 of an entry's covered bytes, computed through the table. */
  method ComputeJournalChecksum(crc: Crc.CrcTable, e: DBJournalEntry) returns (checksum: uint16)
    requires crc.Valid()
    modifies crc, crc.table
    ensures crc.Valid() && checksum == ComputeChecksum(e)
  {
    hide CoveredBytes, Crc.Checksum;
    var buf := new byte[516];
    SerializeCovered(e, buf);
    assert buf[..] == buf[..516];
    checksum := crc.Crc16(buf[..]);
  }

  function ComputeChecksum(e: DBJournalEntry): uint16 {
    Crc.Checksum(CoveredBytes(e))
  }

  function Sealed(e: DBJournalEntry): DBJournalEntry {
    e.(checksum := ComputeChecksum(e))
  }

  predicate Intact(e: DBJournalEntry) {
    e.checksum == ComputeChecksum(e)
  }

  /** A sealed entry is intact, and no longer is when up to sixteen consecutive bits of its covered bytes are
      damaged. */
  lemma DamageDetected(e: DBJournalEntry, damaged: DBJournalEntry, from: nat)
    requires Intact(e) && damaged.checksum == e.checksum
    requires CoveredBytes(damaged) != CoveredBytes(e)
    requires var s, t := Crc.Bits(CoveredBytes(e)), Crc.Bits(CoveredBytes(damaged));
      forall i :: 0 <= i < 8 * 516 && !(from <= i < from + 16) ==> s[i] == t[i]
    ensures !Intact(damaged)
  {
    hide CoveredBytes, Crc.Checksum, Crc.Bits;
    Crc.ChecksumDetectsBurst(CoveredBytes(e), CoveredBytes(damaged), from);
  }
}
