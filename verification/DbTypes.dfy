/** The on-disk structures of the database and its constants. */
module DbTypes {
  import opened Words

  const DB_PAGE_SIZE := 512
  const DB_PAGE_DATA_SIZE := 506
  const DB_MAX_INDEXES := 15
  const DB_MAX_FREE_PAGES := 127
  const DB_JOURNAL_ENTRY_SIZE := 518
  const DB_SIGNATURE: bytes := [86, 68, 66, 0]
  const DB_VERSION: uint16 := 1

  const PS_EMPTY: byte := 0
  const PS_ACTIVE: byte := 1
  const PS_CONTINUATION: byte := 2

  const JO_UPDATE: byte := 1
  const JO_DELETE: byte := 2
  const JO_ADD: byte := 3

  const IT_STRING: byte := 1

  datatype PageShape = Page(id: int32, status: byte, reserved: byte, data: bytes)
  type DBPage = p: PageShape | |p.data| == 506 witness Page(0, 0, 0, Zeros(506))

  /** An all-zero page: the empty page. */
  const EMPTY_PAGE: DBPage := Page(0, PS_EMPTY, 0, Zeros(506))

  datatype IndexInfoShape = IndexInfo(fieldName: bytes, indexType: byte, indexNumber: byte)
  type DBIndexInfo = i: IndexInfoShape | |i.fieldName| == 30 witness IndexInfo(Zeros(30), 0, 0)

  datatype HeaderShape = Header(
    signature: bytes, version: uint16, pageSize: uint16, recordSize: uint16, recordCount: int32, nextRecordId: int32,
    lastCompacted: int32, journalPending: bool, indexCount: byte, reserved: bytes, indexes: seq<DBIndexInfo>)
  type DBHeader = h: HeaderShape | |h.signature| == 4 && |h.reserved| == 8 && |h.indexes| == 15
    witness Header(Zeros(4), 0, 0, 0, 0, 0, 0, false, 0, Zeros(8), seq(15, _ => IndexInfo(Zeros(30), 0, 0)))

  datatype FreeListShape = FreeList(count: uint16, len: uint16, slots: seq<int32>)
  type DBFreeList = f: FreeListShape | |f.slots| == 127 witness FreeList(0, 0, seq(127, _ => 0))

  datatype JournalEntryShape = JournalEntry(operation: byte, pageNum: int32, recordId: int32, data: bytes,
    checksum: uint16)
  type DBJournalEntry = e: JournalEntryShape | |e.data| == 507 witness JournalEntry(0, 0, 0, Zeros(507), 0)

  /** The number of pages a record of the given size takes. */
  function CalculatePagesNeeded(recordSize: uint16): (n: uint16)
    ensures 1 <= n <= 130
    ensures recordSize > 0 ==> (n - 1) * DB_PAGE_DATA_SIZE < recordSize <= n * DB_PAGE_DATA_SIZE
  {
    if recordSize == 0 then 1 else (recordSize as int + DB_PAGE_DATA_SIZE - 1) / DB_PAGE_DATA_SIZE
  }
}
