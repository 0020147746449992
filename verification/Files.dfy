/** The files of a database as typed values, and the facts about them that the operations rest on. */
module Files {
  import opened Words
  import opened DbTypes
  import opened Pages
  import opened Disk
  import opened Directories
  import opened Engine
  import opened Maintenance
  import opened Journal
  import opened Recovery
  import opened Compaction
  import Allocator
  import BTree
  import DbCodec
  import Leaf

  // ---- Files as typed values ----

  predicate Blocks(file: seq<bytes>, size: nat) {
    forall i :: 0 <= i < |file| ==> |file[i]| == size
  }

  function DecodePages(file: seq<bytes>): (pages: Store)
    requires Blocks(file, DB_PAGE_SIZE)
    ensures |file| >= 2 ==>
      |pages| == |file| - 2 && forall i :: 0 <= i < |pages| ==> pages[i] == DbCodec.DecodePage(file[i + 2])
  {
    if |file| < 2 then []
    else seq(|file| - 2, i requires 0 <= i < |file| - 2 => DbCodec.DecodePage(file[i + 2]))
  }

  function DecodeEntries(file: seq<bytes>): (es: seq<DBJournalEntry>)
    requires Blocks(file, DB_JOURNAL_ENTRY_SIZE)
    ensures |es| == |file| && forall i :: 0 <= i < |es| ==> es[i] == DbCodec.DecodeJournal(file[i])
  {
    seq(|file|, i requires 0 <= i < |file| => DbCodec.DecodeJournal(file[i]))
  }

  /** The bytes of a block the file system leaves when a write starts beyond the end. */
  lemma ZeroBlock()
    ensures DbCodec.DecodePage(Zeros(DB_PAGE_SIZE)) == EMPTY_PAGE
  {
    assert Zeros(512)[6..] == Zeros(506);
    assert UnLE32(Zeros(512)[..4]) == 0;
  }

  /** The file with one block written; blocks between its end and the new one are zero. */
  function StoreBlock(file: seq<bytes>, num: nat, block: bytes): (r: seq<bytes>)
    requires Blocks(file, DB_PAGE_SIZE) && |block| == DB_PAGE_SIZE
    ensures Blocks(r, DB_PAGE_SIZE) && num < |r| && r[num] == block && |r| >= |file|
    ensures forall i :: 0 <= i < |file| && i != num ==> r[i] == file[i]
  {
    if num < |file| then file[num := block] else file + seq(num - |file|, _ => Zeros(DB_PAGE_SIZE)) + [block]
  }

  lemma StoredPage(file: seq<bytes>, num: nat, p: DBPage)
    requires Blocks(file, DB_PAGE_SIZE) && 2 <= |file| && 2 <= num
    ensures DecodePages(StoreBlock(file, num, DbCodec.PageBytes(p))) == StorePage(DecodePages(file), num - 2, p)
  {
    hide DbCodec.PageBytes, DbCodec.DecodePage;
    var b := DbCodec.PageBytes(p);
    DbCodec.PageRoundTrip(p, b);
    ZeroBlock();
    var x, y := DecodePages(StoreBlock(file, num, b)), StorePage(DecodePages(file), num - 2, p);
    forall i | 0 <= i < |x| ensures x[i] == y[i] {
    }
  }

  lemma AppendedEntry(file: seq<bytes>, block: bytes)
    requires Blocks(file, DB_JOURNAL_ENTRY_SIZE) && |block| == DB_JOURNAL_ENTRY_SIZE
    ensures Blocks(file + [block], DB_JOURNAL_ENTRY_SIZE)
    ensures DecodeEntries(file + [block]) == DecodeEntries(file) + [DbCodec.DecodeJournal(block)]
  {
    hide DbCodec.DecodeJournal;
  }

  // ---- Sequences of writes ----

  /** One more of the writes. */
  lemma OneMoreWrite(d: Disk, t: seq<Write>, ws: seq<Write>, i: nat)
    requires i < |ws|
    ensures ApplyAll(d, ws[..i + 1]) == Apply(ApplyAll(d, ws[..i]), ws[i])
    ensures t + ws[..i + 1] == t + ws[..i] + [ws[i]]
  {
    assert ws[..i + 1] == ws[..i] + [ws[i]];
    ApplyLast(d, ws[..i], ws[i]);
  }


  /** The 16-bit offset of a piece does not wrap around before it is used. */
  lemma OffsetInRange(size: uint16, i: nat)
    requires i < CalculatePagesNeeded(size)
    ensures i * DB_PAGE_DATA_SIZE <= size && i * DB_PAGE_DATA_SIZE % 0x1_0000 == i * DB_PAGE_DATA_SIZE
  {
  }

  /** Some writes and then others. */
  lemma Then(d: Disk, t: seq<Write>, a: seq<Write>, b: seq<Write>)
    ensures ApplyAll(ApplyAll(d, a), b) == ApplyAll(d, a + b) && t + a + b == t + (a + b)
    ensures a == [] ==> a + b == b
  {
    ApplyConcat(d, a, b);
  }

  lemma ThenOne(d: Disk, t: seq<Write>, a: seq<Write>, w: Write)
    ensures Apply(ApplyAll(d, a), w) == ApplyAll(d, a + [w]) && t + a + [w] == t + (a + [w])
  {
    ApplyLast(d, a, w);
  }

  /** What AddRecord does, step by step: the pages are allocated, the record is stored, and the index entered. */
  lemma AddPlan(s: State, data: bytes)
    requires Operable(s) && Room(s)
    ensures s.mem.header.nextRecordId < INT32_MAX && s.disk.index.Ready?
    ensures PagesPer(s) == CalculatePagesNeeded(s.mem.header.recordSize)
    ensures var id, n, o := s.mem.header.nextRecordId, PagesPer(s), Add(s, data);
      && Allocator.Bounded(s.mem.free) && |s.disk.pages| + n <= Allocator.MAX_PAGES
      && var a := Allocator.Allocate(s.mem.free, s.disk.pages, n);
      && 2 <= a.first && a.first - 2 + n <= |s.disk.pages| + a.grown <= Allocator.MAX_PAGES
      && ApplyAll(s.disk, a.writes) == s.disk.(pages := s.disk.pages + Empties(a.grown), free := a.free)
      && var mem := s.mem.(header := s.mem.header.(nextRecordId := id + 1), free := a.free);
      && var record := RecordWrites(mem, JO_ADD, a.first, id, data, n);
      && ApplyAll(ApplyAll(s.disk, a.writes), record).index == s.disk.index
      && var inserted := Leaf.Inserted(s.disk.index.leaf.entries, id, a.first);
      && (inserted.None? ==> o == Outcome(mem, a.writes + record, false))
      && (inserted.Some? ==>
            && mem.header.recordCount < INT32_MAX
            && var h := mem.header.(recordCount := mem.header.recordCount + 1);
            o == Outcome(mem.(header := h), a.writes + record + IndexWrites(s.disk, inserted.value) + [PutHeader(h)],
              true))
  {
    hide ApplyAll, RecordWrites, IndexWrites, Allocator.Allocate, Allocator.ListsFile, Leaf.Inserted, Spaced, WithRun;
    ListedBounded(s.mem.free, |s.disk.pages|);
    GrantedRange(s);
    Allocator.AllocateInFile(s.mem.free, s.disk.pages, PagesPer(s));
    var n, id := PagesPer(s), s.mem.header.nextRecordId;
    var a := Allocator.Allocate(s.mem.free, s.disk.pages, n);
    Allocator.AllocateWrites(s.mem.free, s.disk, n);
    var d := s.disk.(pages := s.disk.pages + Empties(a.grown), free := a.free);
    var mem := s.mem.(header := s.mem.header.(nextRecordId := id + 1), free := a.free);
    RecordEffect(d, mem, JO_ADD, a.first, id, data, n);
  }

  // ---- Reading records from the blocks of the file ----

  /** Every block of the file as a page, the two leading ones included. */
  function AllPages(file: seq<bytes>): (pages: Store)
    requires Blocks(file, DB_PAGE_SIZE)
    ensures |pages| == |file| && forall i :: 0 <= i < |file| ==> pages[i] == DbCodec.DecodePage(file[i])
  {
    seq(|file|, i requires 0 <= i < |file| => DbCodec.DecodePage(file[i]))
  }

  /** FindRecordByID on the blocks of the file, wherever the index sends it. */
  function FindInFile(file: seq<bytes>, index: BTree.IndexFile, size: uint16, id: int32): Option<bytes>
    requires Blocks(file, DB_PAGE_SIZE)
  {
    match BTree.FirstValue(index, id)
    case None => None
    case Some(first) =>
      if !IsRun(AllPages(file), first, id, CalculatePagesNeeded(size)) then None
      else Some(Content(AllPages(file), first, size))
  }

  lemma FoundInFile(file: seq<bytes>, index: BTree.IndexFile, size: uint16, id: int32)
    requires Blocks(file, DB_PAGE_SIZE)
    ensures var first, r := BTree.FirstValue(index, id), FindInFile(file, index, size, id);
      && (first.None? || first.value < 0 ==> r.None?)
      && (first.Some? && first.value >= 0 ==>
            && (r.Some? <==> IsRun(AllPages(file), first.value, id, CalculatePagesNeeded(size)))
            && (r.Some? ==> r.value == Content(AllPages(file), first.value, size)))
  {
    hide BTree.FirstValue, AllPages, Content;
  }

  /** Every id starts at a data page. */
  predicate Addressed(f: BTree.IndexFile) {
    forall id :: BTree.FirstValue(f, id).Some? ==> BTree.FirstValue(f, id).value >= 2
  }

  /** The data pages are the blocks behind the two leading ones. */
  lemma SameRuns(all: Store, pages: Store, p: int, id: int32, n: nat)
    requires |all| == |pages| + 2 && (forall k :: 0 <= k < |pages| ==> pages[k] == all[k + 2]) && p >= 2
    ensures IsRun(all, p, id, n) <==> IsRun(pages, p - 2, id, n)
  {
    if IsRun(all, p, id, n) {
      forall j | p - 2 <= j < p - 2 + n ensures pages[j].id == id && pages[j].status == StatusOf(j - (p - 2)) {
        assert all[j + 2] == pages[j];
      }
    }
    if IsRun(pages, p - 2, id, n) {
      forall j | p <= j < p + n ensures all[j].id == id && all[j].status == StatusOf(j - p) {
        assert pages[j - 2] == all[j];
      }
    }
  }

  lemma SameContent(all: Store, pages: Store, p: nat, size: uint16)
    requires |all| == |pages| + 2 && (forall k :: 0 <= k < |pages| ==> pages[k] == all[k + 2]) && p >= 2
    requires p - 2 + CalculatePagesNeeded(size) <= |pages|
    ensures Content(all, p, size) == Content(pages, p - 2, size)
  {
    forall k | 0 <= k < size ensures Content(all, p, size)[k] == Content(pages, p - 2, size)[k] {
      PieceOf(k, size);
    }
  }

  /** When the index names data pages only, reading the blocks is reading the data pages. */
  lemma FindsInData(file: seq<bytes>, s: State, id: int32)
    requires Blocks(file, DB_PAGE_SIZE) && |file| >= 2 && s.disk.pages == DecodePages(file) && Addressed(s.disk.index)
    ensures FindInFile(file, s.disk.index, s.mem.header.recordSize, id) == FindRecord(s, id)
  {
    hide DbCodec.DecodePage, BTree.FirstValue, Content, IsRun;
    var first, n, size := BTree.FirstValue(s.disk.index, id), PagesPer(s), s.mem.header.recordSize;
    if first.Some? {
      SameRuns(AllPages(file), s.disk.pages, first.value, id, n);
      if IsRun(s.disk.pages, first.value - 2, id, n) {
        InRange(s.disk.pages, first.value - 2, id, n);
        SameContent(AllPages(file), s.disk.pages, first.value, size);
      }
    }
  }

  /** The first `i` pages from the slot on belong to the record. */
  predicate RunSoFar(pages: Store, slot: int, id: int32, i: nat) {
    && 0 <= slot && (i > 0 ==> slot + i <= |pages|)
    && forall j :: slot <= j < slot + i ==> pages[j].id == id && pages[j].status == StatusOf(j - slot)
  }

  lemma NoneSoFar(pages: Store, slot: nat, id: int32)
    ensures RunSoFar(pages, slot, id, 0)
  {
  }

  /** One page more or less than `n` pages of the record. */
  lemma OneMoreSoFar(pages: Store, slot: nat, id: int32, i: nat, n: nat)
    requires RunSoFar(pages, slot, id, i) && i < n
    ensures var fits := slot + i < |pages| && pages[slot + i].id == id && pages[slot + i].status == StatusOf(i);
      (fits ==> RunSoFar(pages, slot, id, i + 1)) && (!fits ==> !IsRun(pages, slot, id, n))
  {
    if IsRun(pages, slot, id, n) {
      RunPage(pages, slot, id, n, slot + i);
    }
  }

  /** The data of `i` pages one after the other. */
  function PageBytes(pages: Store, slot: nat, i: nat): (r: bytes)
    requires i > 0 ==> slot + i <= |pages|
    ensures |r| == i * DB_PAGE_DATA_SIZE
  {
    if i == 0 then [] else PageBytes(pages, slot, i - 1) + pages[slot + i - 1].data
  }

  /** How much of a record of the given size its first `i` pages hold. */
  function Upto(i: nat, size: uint16): (n: nat)
    ensures n <= size && n <= i * DB_PAGE_DATA_SIZE
  {
    if i * DB_PAGE_DATA_SIZE <= size then i * DB_PAGE_DATA_SIZE else size
  }

  lemma WholeSize(size: uint16)
    ensures Upto(CalculatePagesNeeded(size), size) == size && Upto(0, size) == 0
  {
  }

  lemma NoPageBytes(pages: Store, slot: nat)
    ensures PageBytes(pages, slot, 0) == []
  {
  }

  lemma MorePageBytes(pages: Store, slot: nat, i: nat, size: uint16)
    requires slot + i < |pages| && i * DB_PAGE_DATA_SIZE <= size
    ensures PageBytes(pages, slot, i + 1)[..Upto(i + 1, size)]
         == PageBytes(pages, slot, i)[..Upto(i, size)]
           + pages[slot + i].data[..Upto(i + 1, size) - i * DB_PAGE_DATA_SIZE]
  {
  }

  lemma {:induction false} PageBytesAt(pages: Store, slot: nat, i: nat, k: nat)
    requires k < i * DB_PAGE_DATA_SIZE && slot + i <= |pages|
    ensures k / DB_PAGE_DATA_SIZE < i
    ensures PageBytes(pages, slot, i)[k] == pages[slot + k / DB_PAGE_DATA_SIZE].data[k % DB_PAGE_DATA_SIZE]
  {
    if k < (i - 1) * DB_PAGE_DATA_SIZE {
      PageBytesAt(pages, slot, i - 1, k);
    } else {
      assert k / DB_PAGE_DATA_SIZE == i - 1;
    }
  }

  lemma Assembled(pages: Store, slot: nat, id: int32, size: uint16, data: bytes)
    requires RunSoFar(pages, slot, id, CalculatePagesNeeded(size)) && |data| == size
    requires var n := CalculatePagesNeeded(size); data == PageBytes(pages, slot, n)[..Upto(n, size)]
    ensures IsRun(pages, slot, id, CalculatePagesNeeded(size)) && Content(pages, slot, size) == data
  {
    hide PageBytes;
    var n := CalculatePagesNeeded(size);
    forall k | 0 <= k < size ensures Content(pages, slot, size)[k] == data[k] {
      PieceOf(k, size);
      PageBytesAt(pages, slot, n, k);
    }
  }

  lemma EmptyJournal()
    ensures DecodeEntries([]) == []
  {
  }

  /** Where the index sends a change of a record. */
  lemma ChangePlan(s: State, id: int32)
    requires Operable(s)
    ensures s.disk.index.Ready? && s.mem.free.len <= DB_MAX_FREE_PAGES
    ensures PagesPer(s) == CalculatePagesNeeded(s.mem.header.recordSize)
    ensures var first := BTree.FirstValue(s.disk.index, id);
      first.Some? ==> 2 <= first.value && first.value + PagesPer(s) <= |s.disk.pages| + 2 <= 0x7FFF_FFFF
  {
    hide Allocator.Listed;
  }

  lemma UpdatePlan(s: State, id: int32, data: bytes)
    requires Operable(s)
    ensures var first := BTree.FirstValue(s.disk.index, id);
      && (first.None? ==> Update(s, id, data) == Outcome(s.mem, [], false))
      && (first.Some? ==>
            && first.value + PagesPer(s) <= 0x7FFF_FFFF
            && Update(s, id, data)
               == Outcome(s.mem, RecordWrites(s.mem, JO_UPDATE, first.value, id, data, PagesPer(s)), true))
  {
    hide RecordWrites;
    ChangePlan(s, id);
  }

  /** The record that starts at page `first` can be removed: its pages have numbers, the index has its id, and emptying
      the pages leaves the index alone. */
  ghost predicate Removable(m: Memory, d: Disk, first: int32, id: int32) {
    && 2 <= first && first + CalculatePagesNeeded(m.header.recordSize) <= 0x7FFF_FFFF
    && m.free.len <= DB_MAX_FREE_PAGES && m.header.recordCount > 0 && d.index.Ready?
    && Leaf.Deleted(d.index.leaf.entries, id).Some? && |Leaf.Deleted(d.index.leaf.entries, id).value| <= 60
    && ApplyAll(d, EraseWrites(m, first, id, CalculatePagesNeeded(m.header.recordSize))).index == d.index
  }

  /** The steps of DeleteRecord: the pages are emptied, the id leaves the index, and the pages are released. */
  ghost function Removal(m: Memory, d: Disk, first: int32, id: int32): Outcome
    requires Removable(m, d, first, id)
  {
    var n, es := CalculatePagesNeeded(m.header.recordSize), Leaf.Deleted(d.index.leaf.entries, id).value;
    var f, h := Allocator.Release(m.free, first, n), m.header.(recordCount := m.header.recordCount - 1);
    Outcome(m.(header := h, free := f),
            EraseWrites(m, first, id, n) + IndexWrites(d, es) + [PutFree(f)] + [PutHeader(h)], true)
  }

  lemma DeletePlan(s: State, id: int32)
    requires Operable(s)
    ensures BTree.FirstValue(s.disk.index, id).None? ==> Delete(s, id) == Outcome(s.mem, [], false)
    ensures BTree.FirstValue(s.disk.index, id).Some? ==>
      var first := BTree.FirstValue(s.disk.index, id).value;
      Removable(s.mem, s.disk, first, id) && Delete(s, id) == Removal(s.mem, s.disk, first, id)
  {
    hide EraseWrites, IndexWrites, Allocator.Release, ApplyAll, Allocator.Listed;
    if BTree.FirstValue(s.disk.index, id).Some? {
      SpaceBehind(s, id);
      EraseEffect(s.disk, s.mem, BTree.FirstValue(s.disk.index, id).value, id, PagesPer(s));
    }
  }

  // ---- The writes of the index object ----

  lemma InsertedWrites(d: Disk, es: seq<Leaf.Entry>)
    requires d.index.Ready? && |es| <= 60
    ensures var leaf := d.index.leaf.(entries := es);
      IndexWrites(d, es) == IndexPuts(if leaf == d.index.leaf then [] else [BTree.LeafWritten(leaf)])
    ensures ApplyAll(d, IndexWrites(d, es)) == d.(index := BTree.Ready(d.index.leaf.(entries := es)))
  {
    IndexEffect(d, es);
  }

  lemma RemovedWrites(d: Disk, id: int32)
    requires d.index.Ready? && Leaf.Deleted(d.index.leaf.entries, id).Some?
    ensures var es := Leaf.Deleted(d.index.leaf.entries, id).value;
      && |es| <= 60
      && IndexWrites(d, es) == IndexPuts([BTree.LeafWritten(d.index.leaf.(entries := es))])
      && ApplyAll(d, IndexWrites(d, es)) == d.(index := BTree.Ready(d.index.leaf.(entries := es)))
  {
    IndexEffect(d, Leaf.Deleted(d.index.leaf.entries, id).value);
  }

  function RecreateLog(): seq<BTree.IndexWrite> {
    [BTree.HeaderWritten, BTree.Truncated, BTree.HeaderWritten, BTree.LeafWritten(BTree.EmptyLeaf())]
  }

  lemma RecreatePuts()
    ensures IndexPuts(RecreateLog()) == Recreate()
  {
    hide BTree.EmptyLeaf;
  }

  lemma CreatePuts()
    ensures IndexPuts([BTree.Truncated, BTree.HeaderWritten, BTree.LeafWritten(BTree.EmptyLeaf())])
         == CreateIndexWrites()
  {
    hide BTree.EmptyLeaf;
  }

  /** The index file has no part in the writes to a new data file. */
  lemma DataWritesPart(t: seq<Write>, size: uint16)
    ensures IndexPart(t + CreateDataWrites(size)) == IndexPart(t)
  {
    hide IndexPart, Created;
    var c := Created(size, None);
    IndexPartOne(t, RemoveFile);
    IndexPartOne(t + [RemoveFile], BeginFile(c.header));
    IndexPartOne(t + [RemoveFile] + [BeginFile(c.header)], ListFile(c.free));
    assert t + CreateDataWrites(size) == t + [RemoveFile] + [BeginFile(c.header)] + [ListFile(c.free)];
  }

  lemma ScanStart(pages: Store)
    requires |pages| <= Allocator.MAX_PAGES
    ensures ScanWrites(pages, 0) == [] && LeafOf(Scanned(pages, 0)) == BTree.EmptyLeaf()
  {
  }

  /** The scan of one more page makes the write of the insertion, if any. */
  lemma ScanStep(d: Disk, pages: Store, k: nat)
    requires k < |pages| <= Allocator.MAX_PAGES
    ensures var es, d' := Scanned(pages, k), d.(index := BTree.Ready(LeafOf(Scanned(pages, k))));
      && d'.index.leaf.entries == es
      && var inserted := Leaf.Inserted(es, pages[k].id, k + 2);
      && ScanWrites(pages, k + 1) == ScanWrites(pages, k) +
           (if pages[k].status != PS_ACTIVE || inserted.None? then [] else IndexWrites(d', inserted.value))
      && Scanned(pages, k + 1) == (if pages[k].status != PS_ACTIVE || inserted.None? then es else inserted.value)
      && (inserted.Some? ==>
            ApplyAll(d', IndexWrites(d', inserted.value)) == d.(index := BTree.Ready(LeafOf(inserted.value))))
  {
    hide Leaf.Inserted, ApplyAll;
    var d', inserted := d.(index := BTree.Ready(LeafOf(Scanned(pages, k)))),
      Leaf.Inserted(Scanned(pages, k), pages[k].id, k + 2);
    if inserted.Some? {
      IndexEffect(d', inserted.value);
    }
  }

  /** A free-list page of zeros lists nothing. */
  lemma BlankFreeList()
    ensures DbCodec.DecodeFreeList(Zeros(DB_PAGE_SIZE)) == NoFreePages()
  {
    hide Leaf.ReadValues;
    ZeroWords(Zeros(512));
    assert Leaf.ReadValues(Zeros(512), 4, 127) == seq(127, _ => 0);
    assert UnLE16(Zeros(512)[..2]) == 0 && UnLE16(Zeros(512)[2..4]) == 0;
  }

  lemma ZeroWords(b: bytes)
    requires b == Zeros(512)
    ensures Leaf.ReadValues(b, 4, 127) == seq(127, _ => 0)
  {
    forall j | 0 <= j < 127 ensures Leaf.ReadValues(b, 4, 127)[j] == 0 {
      assert b[4 + 4 * j..4 + 4 * j + 4] == [0, 0, 0, 0];
    }
  }

  /** The pages copied so far and those that the copying from slot `i` on adds. */
  ghost function CopiedAnd(copied: Store, pages: Store, n: nat, i: nat): Store
    requires n >= 1
  {
    copied + CompactFrom(pages, n, i)
  }

  lemma CompactStart(pages: Store, n: nat)
    requires n >= 1
    ensures CopiedAnd([], pages, n, 0) == CompactFrom(pages, n, 0)
  {
  }

  lemma CompactStep(pages: Store, n: nat, i: nat, copied: Store)
    requires n >= 1 && i < |pages|
    ensures pages[i].status == PS_ACTIVE ==>
      CopiedAnd(copied, pages, n, i) == CopiedAnd(copied + CopiedRun(pages, i, n), pages, n, i + n)
    ensures pages[i].status != PS_ACTIVE ==> CopiedAnd(copied, pages, n, i) == CopiedAnd(copied, pages, n, i + 1)
  {
    hide CopiedRun;
  }

  lemma CompactEnd(pages: Store, n: nat, i: nat, copied: Store)
    requires n >= 1 && i >= |pages|
    ensures CopiedAnd(copied, pages, n, i) == copied
  {
  }

  // ---- Replaying the journal ----

  lemma NoRedo(es: seq<DBJournalEntry>, pages: Store)
    ensures es[..0] == [] && Redo(es[..0], pages) == pages
    ensures |pages| <= Allocator.MAX_PAGES ==> RedoWrites(es[..0], pages) == []
  {
  }

  lemma {:induction false} RedoGrows(es: seq<DBJournalEntry>, pages: Store, k: nat)
    requires k <= |es|
    ensures |Redo(es[..k], pages)| <= |Redo(es, pages)|
    decreases |es|
  {
    hide RedoWrite;
    if k < |es| {
      RedoGrows(es[..|es| - 1], pages, k);
      assert es[..|es| - 1][..k] == es[..k];
    } else {
      assert es[..k] == es;
    }
  }

  /** Replaying one more entry makes its page write, if any. */
  lemma RedoStep(d: Disk, t: seq<Write>, es: seq<DBJournalEntry>, k: nat)
    requires k < |es| && |Redo(es, d.pages)| <= Allocator.MAX_PAGES
    ensures |Redo(es[..k], d.pages)| <= Allocator.MAX_PAGES && |Redo(es[..k + 1], d.pages)| <= Allocator.MAX_PAGES
    ensures var pages := Redo(es[..k], d.pages);
      && Redo(es[..k + 1], d.pages) == RedoOne(pages, es[k])
      && var w := RedoWrite(pages, es[k]);
      && (w.None? ==>
            RedoWrites(es[..k + 1], d.pages) == RedoWrites(es[..k], d.pages) && RedoOne(pages, es[k]) == pages)
      && (w.Some? ==>
            && w.value.0 + 2 < 0x8000_0000
            && var put := PutPage(w.value.0 + 2, w.value.1);
            && RedoWrites(es[..k + 1], d.pages) == RedoWrites(es[..k], d.pages) + [put]
            && Apply(ApplyAll(d, RedoWrites(es[..k], d.pages)), put)
               == ApplyAll(d, RedoWrites(es[..k], d.pages) + [put])
            && t + RedoWrites(es[..k], d.pages) + [put] == t + (RedoWrites(es[..k], d.pages) + [put])
            && Apply(ApplyAll(d, RedoWrites(es[..k], d.pages)), put).pages == RedoOne(pages, es[k]))
  {
    hide RedoWrite, ApplyAll, StorePage;
    RedoGrows(es, d.pages, k);
    RedoGrows(es, d.pages, k + 1);
    var part := es[..k + 1];
    assert part[..k] == es[..k] && part[k] == es[k];
    RedoWritesEffect(d, es[..k]);
    var w := RedoWrite(Redo(es[..k], d.pages), es[k]);
    if w.Some? {
      ThenOne(d, t, RedoWrites(es[..k], d.pages), PutPage(w.value.0 + 2, w.value.1));
    }
  }

  lemma EntryAt(file: seq<bytes>, k: nat)
    requires Blocks(file, DB_JOURNAL_ENTRY_SIZE) && k < |file|
    ensures DecodeEntries(file)[k] == DbCodec.DecodeJournal(file[k])
  {
  }

  lemma NoHeaderFinds(file: BTree.IndexFile, key: int32)
    requires file == BTree.NoHeader
    ensures BTree.LookIn(file, key) == None
  {
  }

  lemma EntriesAreData(s: State)
    requires Core(s)
    ensures Coherent(s) && |Entries(s.disk)| == |Data(s)|
  {
    DirectorySize(Entries(s.disk));
    assert |Data(s)| == |Data(s).Keys| && |Dir(s.disk)| == |Dir(s.disk).Keys|;
  }

  lemma CompactedSize(s: State, s': State, now: int32)
    requires Full(s) && Full(s') && Data(s') == Data(s)
    requires |CompactFrom(s.disk.pages, PagesPer(s), 0)| <= Allocator.MAX_PAGES && s' == After(s, Compact(s, now))
    ensures s.mem.header.recordCount == |Data(s')| && PagesPer(s') == PagesPer(s)
  {
    hide ApplyAll, CompactFrom, RebuildWrites, Allocator.Refilled;
    EntriesAreData(s);
  }

  lemma PagesLength(file: seq<bytes>)
    requires Blocks(file, DB_PAGE_SIZE) && |file| >= 2
    ensures |DecodePages(file)| == |file| - 2
  {
  }

  lemma NothingWritten(d: Disk, t: seq<Write>)
    ensures ApplyAll(d, []) == d && t + [] == t
  {
  }

  lemma RefillEffect(d: Disk, f: DBFreeList)
    requires |d.pages| <= Allocator.MAX_PAGES
    ensures ApplyAll(d, [PutFree(Allocator.Refilled(d.pages))]) == d.(free := Allocator.Refilled(d.pages))
  {
    ApplyOne(d, PutFree(Allocator.Refilled(d.pages)));
  }

  /** The strategies of an allocation, one after the other. */
  lemma AllocateCases(f: DBFreeList, pages: Store, n: uint16)
    requires Allocator.Bounded(f) && n >= 1 && |pages| + n <= Allocator.MAX_PAGES
    ensures var a, g := Allocator.Allocate(f, pages, n), Allocator.Refilled(pages);
      var a' := Allocator.Allocate(g, pages, n);
      match Allocator.Take(f, n)
      case Some((p, f')) => a.first == p && a.free == f' && a.writes == [PutFree(f')]
      case None =>
        if f.count >= n && f.len == 0 then
          if g.len > 0 then a.first == a'.first && a.free == a'.free && a.writes == [PutFree(g)] + a'.writes
          else a.first == |pages| + 2 && a.free == g && a.writes == [PutFree(g)] + Allocator.Append(pages, n)
        else a.first == |pages| + 2 && a.free == f && a.writes == Allocator.Append(pages, n)
  {
    hide Allocator.Refilled, Allocator.Append;
  }

  /** The count and the list when the given empty pages have been met. */
  ghost predicate Collected(e: seq<int32>, count: uint16, len: uint16, slots: seq<int32>) {
    && count == |e| % 0x1_0000 && len == (if |e| < DB_MAX_FREE_PAGES then |e| else DB_MAX_FREE_PAGES)
    && slots == e[..len] + seq(DB_MAX_FREE_PAGES - len, _ => 0)
  }

  lemma NoneCollected(pages: Store, slots: seq<int32>)
    requires |pages| <= Allocator.MAX_PAGES && |slots| == DB_MAX_FREE_PAGES
    requires forall j :: 0 <= j < |slots| ==> slots[j] == 0
    ensures Collected(Allocator.EmptyNumbers(pages, 0), 0, 0, slots)
  {
  }

  lemma NextEmpty(pages: Store, k: nat)
    requires k < |pages| <= Allocator.MAX_PAGES
    ensures Allocator.EmptyNumbers(pages, k + 1)
         == if pages[k].status == PS_EMPTY then Allocator.EmptyNumbers(pages, k) + [k + 2]
            else Allocator.EmptyNumbers(pages, k)
  {
  }

  lemma AllCollected(pages: Store, count: uint16, len: uint16, slots: seq<int32>)
    requires |pages| <= Allocator.MAX_PAGES && Collected(Allocator.EmptyNumbers(pages, |pages|), count, len, slots)
    ensures |slots| == DB_MAX_FREE_PAGES && FreeList(count, len, slots) == Allocator.Refilled(pages)
  {
  }

  lemma CollectedLength(e: seq<int32>, count: uint16, len: uint16, slots: seq<int32>)
    requires Collected(e, count, len, slots)
    ensures |slots| == DB_MAX_FREE_PAGES && len <= DB_MAX_FREE_PAGES
  {
  }

  lemma MoreCollected(e: seq<int32>, count: uint16, len: uint16, slots: seq<int32>, p: int32)
    requires Collected(e, count, len, slots)
    ensures |slots| == DB_MAX_FREE_PAGES
    ensures Collected(e + [p], (count as int + 1) % 0x1_0000, if len < DB_MAX_FREE_PAGES then len + 1 else len,
                      if len < DB_MAX_FREE_PAGES then slots[len := p] else slots)
  {
    CountOneMore(|e|);
    if len < DB_MAX_FREE_PAGES {
      assert (e + [p])[..len + 1] == e + [p] && e[..len] == e;
      assert slots[len := p] == e + [p] + seq(DB_MAX_FREE_PAGES - (len + 1), _ => 0);
    } else {
      assert (e + [p])[..len] == e[..len];
    }
  }

  lemma CountOneMore(n: nat)
    ensures (n % 0x1_0000 + 1) % 0x1_0000 == (n + 1) % 0x1_0000
  {
  }
}
