/** What the record operations do: the writes they make, in order, and the memory they leave. */
module Engine {
  import opened Words
  import opened DbTypes
  import opened Pages
  import opened Disk
  import opened Directories
  import Allocator
  import BTree
  import DbCodec
  import Leaf

  datatype State = State(mem: Memory, disk: Disk)

  /** What an operation does: the memory it leaves, its writes in order, and whether it succeeds. */
  datatype Outcome = Outcome(mem: Memory, writes: seq<Write>, ok: bool)

  function After(s: State, o: Outcome): State {
    State(o.mem, ApplyAll(s.disk, o.writes))
  }

  function PagesPer(s: State): (n: uint16)
    ensures 1 <= n <= 130
  {
    CalculatePagesNeeded(s.mem.header.recordSize)
  }

  // ---- The invariant ----

  predicate Indexed(d: Disk) {
    d.index.Ready? && Singles(d.index.leaf.entries)
  }

  function Entries(d: Disk): seq<Leaf.Entry>
    requires Indexed(d)
  {
    d.index.leaf.entries
  }

  function Dir(d: Disk): Directory
    requires Indexed(d)
  {
    DirectoryOf(d.index.leaf.entries)
  }

  /** The header in memory is the one on disk, except that ids handed out by failed additions are not yet on disk. */
  predicate HeadersAgree(mem: Memory, d: Disk) {
    && d.leading == 2
    && mem.header.signature == DB_SIGNATURE && mem.header.version == DB_VERSION
    && mem.header.recordSize > 0
    && 1 <= d.header.nextRecordId <= mem.header.nextRecordId
    && d.header == mem.header.(nextRecordId := d.header.nextRecordId)
    && mem.header.journalPending == mem.journalOpen
    && (mem.journalOpen ==> d.journal.Some?)
  }

  /** Free-list entries are distinct empty pages of the file, and the count is exact modulo 2^16. */
  predicate FreeAgrees(mem: Memory, d: Disk) {
    && |d.pages| <= Allocator.MAX_PAGES
    && d.free == mem.free
    && Allocator.Bounded(mem.free)
    && Allocator.Sound(mem.free, d.pages)
    && mem.free.count == Count(d.pages, PS_EMPTY) % 0x1_0000
  }

  predicate IdsBelow(dir: Directory, next: int) {
    forall id :: id in dir ==> 1 <= id < next
  }

  /** Every key of an index starts at a data page with space for `n` pages before the end of the file. */
  predicate Spaced(f: BTree.IndexFile, n: nat, size: nat) {
    forall id :: BTree.FirstValue(f, id).Some? ==>
      2 <= BTree.FirstValue(f, id).value && BTree.FirstValue(f, id).value - 2 + n <= size
  }

  /** What the record operations demand: a readable index and a free list that name pages of the file. */
  predicate Operable(s: State) {
    && |s.disk.pages| <= Allocator.MAX_PAGES
    && Allocator.ListsFile(s.mem.free, |s.disk.pages|) && s.disk.free == s.mem.free
    && s.disk.index.Ready? && Spaced(s.disk.index, PagesPer(s), |s.disk.pages|)
    && |s.disk.index.leaf.entries| <= s.mem.header.recordCount
    && (s.mem.journalOpen ==> s.disk.journal.Some?)
  }

  /** The index maps the live ids to their runs, the free list is sound and the counts are right. */
  predicate Coherent(s: State): (r: bool)
    ensures r ==> Operable(s)
  {
    && HeadersAgree(s.mem, s.disk)
    && FreeAgrees(s.mem, s.disk)
    && Indexed(s.disk)
    && Runs(s.disk.pages, PagesPer(s), Dir(s.disk))
    && s.mem.header.recordCount == |Entries(s.disk)|
    && (PartsOperable(s); true)
  }

  lemma PartsOperable(s: State)
    requires HeadersAgree(s.mem, s.disk) && FreeAgrees(s.mem, s.disk) && Indexed(s.disk)
    requires Runs(s.disk.pages, PagesPer(s), Dir(s.disk)) && s.mem.header.recordCount == |Entries(s.disk)|
    ensures Operable(s)
  {
    hide Allocator.Sound, Allocator.ListsFile, DirectoryOf, Singles, BTree.FirstValue, IsRun;
    Allocator.SoundListsFile(s.mem.free, s.disk.pages);
    forall id | BTree.FirstValue(s.disk.index, id).Some?
      ensures 2 <= BTree.FirstValue(s.disk.index, id).value
      ensures BTree.FirstValue(s.disk.index, id).value - 2 + PagesPer(s) <= |s.disk.pages|
    {
      FirstIs(s.disk, id);
      InRange(s.disk.pages, Dir(s.disk)[id], id, PagesPer(s));
    }
  }

  /** The first page that the index gives for an id is that of the directory. */
  lemma FirstIs(d: Disk, id: int32)
    requires Indexed(d)
    ensures BTree.FirstValue(d.index, id).Some? <==> id in Dir(d)
    ensures id in Dir(d) ==> BTree.FirstValue(d.index, id).value == Dir(d)[id] + 2
  {
    hide DirectoryOf, Singles, Leaf.Found;
    Lookup(Entries(d), id);
  }

  /** What every operation keeps, failed additions included: coherence, and no live id is ever handed out again. */
  predicate Core(s: State): (r: bool)
    ensures r ==> Coherent(s)
  {
    Coherent(s) && IdsBelow(Dir(s.disk), s.disk.header.nextRecordId)
  }

  /** No page is lost: every page is empty or belongs to a record, so that the records' pages, the empty pages and the
      two leading pages make up the file. */
  predicate NoneLost(s: State)
    requires Coherent(s)
  {
    && Owned(s.disk.pages, PagesPer(s), Dir(s.disk))
    && Count(s.disk.pages, PS_ACTIVE) == |Entries(s.disk)|
    && Count(s.disk.pages, PS_EMPTY) + PagesPer(s) * |Entries(s.disk)| == |s.disk.pages|
  }

  predicate Full(s: State): (r: bool)
    ensures r ==> Core(s)
  {
    Core(s) && NoneLost(s)
  }

  /** The records of a database as a plain map. */
  function Data(s: State): map<int32, bytes>
    requires Coherent(s)
  {
    Records(s.disk.pages, s.mem.header.recordSize, Dir(s.disk))
  }

  // ---- Journal entries ----

  predicate Journaling(mem: Memory) {
    mem.header.journalPending && mem.journalOpen
  }

  /** The entry for the i-th page of a record that is added or updated. */
  function WriteEntry(op: byte, first: int32, id: int32, data: bytes, i: nat): DBJournalEntry
    requires first + i < 0x8000_0000
  {
    DbCodec.Sealed(JournalEntry(op, first + i, id, [StatusOf(i)] + Chunk(data, i), 0))
  }

  function WriteEntries(op: byte, first: int32, id: int32, data: bytes, n: nat): (es: seq<DBJournalEntry>)
    requires first + n <= 0x8000_0000
    ensures |es| == n
    ensures forall i :: 0 <= i < n ==> es[i] == WriteEntry(op, first, id, data, i)
  {
    seq(n, i requires 0 <= i < n => WriteEntry(op, first, id, data, i))
  }

  function EraseEntry(first: int32, id: int32, i: nat): DBJournalEntry
    requires first + i < 0x8000_0000
  {
    DbCodec.Sealed(JournalEntry(JO_DELETE, first + i, id, Zeros(507), 0))
  }

  function EraseEntries(first: int32, id: int32, n: nat): (es: seq<DBJournalEntry>)
    requires first + n <= 0x8000_0000
    ensures |es| == n
    ensures forall i :: 0 <= i < n ==> es[i] == EraseEntry(first, id, i)
  {
    seq(n, i requires 0 <= i < n => EraseEntry(first, id, i))
  }

  function Journaled(mem: Memory, es: seq<DBJournalEntry>): seq<Write> {
    if Journaling(mem) then JournalWrites(es) else []
  }

  // ---- The operations ----

  /** The index write that replaces the entries, if they change. */
  function IndexWrites(d: Disk, es: seq<Leaf.Entry>): seq<Write>
    requires d.index.Ready? && |es| <= 60
  {
    if es == d.index.leaf.entries then [] else [PutIndex(BTree.LeafWritten(d.index.leaf.(entries := es)))]
  }

  /** The writes that put a record into pages: its journal entries, then its pages. */
  function RecordWrites(mem: Memory, op: byte, first: int32, id: int32, data: bytes, n: uint16): seq<Write>
    requires first + n <= 0x8000_0000
  {
    Journaled(mem, WriteEntries(op, first, id, data, n)) + PageWrites(first, Images(id, data, n))
  }

  /** FindRecordByID: the pages from the first one the index gives, if they are the record's. */
  function FindRecord(s: State, id: int32): (r: Option<bytes>)
    ensures r.Some? ==> |r.value| == s.mem.header.recordSize
  {
    match BTree.FirstValue(s.disk.index, id)
    case None => None
    case Some(first) =>
      if !IsRun(s.disk.pages, (first as int) - 2, id, PagesPer(s)) then None
      else Some(Content(s.disk.pages, (first as int) - 2, s.mem.header.recordSize))
  }

  /** Looking an id up gives its record, and fails on any other id. */
  lemma FindsRecords(s: State, id: int32)
    requires Coherent(s)
    ensures FindRecord(s, id) == if id in Data(s) then Some(Data(s)[id]) else None
  {
    hide Coherent, Operable, DirectoryOf, Singles, IsRun, Content, HeadersAgree, FreeAgrees, BTree.FirstValue,
      Records;
    PartsOf(s);
    FirstIs(s.disk, id);
    if id in Dir(s.disk) {
      RunOf(s, id);
    }
  }

  lemma RunOf(s: State, id: int32)
    requires Coherent(s) && id in Dir(s.disk)
    ensures IsRun(s.disk.pages, Dir(s.disk)[id], id, PagesPer(s)) && 0 <= Dir(s.disk)[id]
    ensures Dir(s.disk)[id] + PagesPer(s) <= |s.disk.pages|
    ensures Data(s)[id] == Content(s.disk.pages, Dir(s.disk)[id], s.mem.header.recordSize)
  {
    hide DirectoryOf, Content;
  }

  predicate Room(s: State) {
    && |s.disk.pages| + PagesPer(s) <= Allocator.MAX_PAGES
    && s.mem.header.nextRecordId < INT32_MAX && s.mem.header.recordCount < INT32_MAX
  }

  /** AddRecord. */
  function Add(s: State, data: bytes): Outcome
    requires Operable(s) && Room(s)
  {
    var id, n := s.mem.header.nextRecordId, PagesPer(s);
    var a := Allocator.Allocate(s.mem.free, s.disk.pages, n);
    Allocator.AllocateInFile(s.mem.free, s.disk.pages, n);
    var mem := s.mem.(header := s.mem.header.(nextRecordId := id + 1), free := a.free);
    var ws := a.writes + RecordWrites(mem, JO_ADD, a.first, id, data, n);
    match Leaf.Inserted(s.disk.index.leaf.entries, id, a.first)
    case None => Outcome(mem, ws, false)
    case Some(es) =>
      var h := mem.header.(recordCount := mem.header.recordCount + 1);
      Outcome(mem.(header := h), ws + IndexWrites(s.disk, es) + [PutHeader(h)], true)
  }

  lemma AllocatedBelow(s: State)
    requires Coherent(s) && Room(s)
    ensures var a := Allocator.Allocate(s.mem.free, s.disk.pages, PagesPer(s));
      Allocator.Granted(s.disk.pages, PagesPer(s), a.first, a.free, a.grown)
      && a.first + PagesPer(s) <= 0x8000_0000
    ensures |Entries(s.disk)| <= MAX_RECORDS
  {
    Allocator.AllocateSound(s.mem.free, s.disk.pages, PagesPer(s));
    Leaf.SizeAtLeast(Entries(s.disk));
  }

  lemma RunBelow(s: State, id: int32)
    requires Coherent(s) && id in Dir(s.disk)
    ensures 0 <= Dir(s.disk)[id] && Dir(s.disk)[id] + PagesPer(s) <= |s.disk.pages| <= Allocator.MAX_PAGES
  {
    InRange(s.disk.pages, Dir(s.disk)[id], id, PagesPer(s));
  }

  /** UpdateRecord. */
  function Update(s: State, id: int32, data: bytes): Outcome
    requires Operable(s)
  {
    match BTree.FirstValue(s.disk.index, id)
    case None => Outcome(s.mem, [], false)
    case Some(first) => Outcome(s.mem, RecordWrites(s.mem, JO_UPDATE, first, id, data, PagesPer(s)), true)
  }

  lemma UpdateIs(s: State, id: int32, data: bytes)
    requires Coherent(s)
    ensures id !in Dir(s.disk) ==> Update(s, id, data) == Outcome(s.mem, [], false)
    ensures id in Dir(s.disk) ==>
      && 0 <= Dir(s.disk)[id] && Dir(s.disk)[id] + PagesPer(s) <= |s.disk.pages| <= 0x7FFF_FFFD
      && Update(s, id, data)
         == Outcome(s.mem, RecordWrites(s.mem, JO_UPDATE, Dir(s.disk)[id] + 2, id, data, PagesPer(s)), true)
  {
    hide RecordWrites, DirectoryOf, Singles, Runs, Operable, FreeAgrees, HeadersAgree, BTree.FirstValue;
    FirstIs(s.disk, id);
    if id in Dir(s.disk) {
      RunBelow(s, id);
    }
  }

  /** The writes that empty a record's pages: its journal entries, then its pages. */
  function EraseWrites(mem: Memory, first: int32, id: int32, n: uint16): seq<Write>
    requires first + n <= 0x8000_0000
  {
    Journaled(mem, EraseEntries(first, id, n)) + PageWrites(first, Empties(n))
  }

  /** DeleteRecord. */
  function Delete(s: State, id: int32): Outcome
    requires Operable(s)
  {
    match BTree.FirstValue(s.disk.index, id)
    case None => Outcome(s.mem, [], false)
    case Some(first) =>
      var n := PagesPer(s);
      var f := Allocator.Release(s.mem.free, first, n);
      var h := s.mem.header.(recordCount := s.mem.header.recordCount - 1);
      var es := Leaf.Deleted(s.disk.index.leaf.entries, id).value;
      Outcome(s.mem.(header := h, free := f),
              EraseWrites(s.mem, first, id, n) + IndexWrites(s.disk, es) + [PutFree(f)] + [PutHeader(h)], true)
  }

  lemma DeleteIs(s: State, id: int32)
    requires Coherent(s)
    ensures id !in Dir(s.disk) ==> Delete(s, id) == Outcome(s.mem, [], false)
    ensures id in Dir(s.disk) ==>
      var first, n, es := Dir(s.disk)[id] + 2, PagesPer(s), Leaf.Deleted(Entries(s.disk), id);
      && 2 <= first && first - 2 + n <= |s.disk.pages| <= 0x7FFF_FFFD && es.Some? && |es.value| <= 60
      && s.mem.free.len <= DB_MAX_FREE_PAGES && s.mem.header.recordCount > 0
      && var f := Allocator.Release(s.mem.free, first, n);
      && var h := s.mem.header.(recordCount := s.mem.header.recordCount - 1);
      && Delete(s, id) == Outcome(s.mem.(header := h, free := f),
           EraseWrites(s.mem, first, id, n) + IndexWrites(s.disk, es.value) + [PutFree(f)] + [PutHeader(h)], true)
  {
    hide EraseWrites, IndexWrites, DirectoryOf, Singles, Runs, Operable, Allocator.Sound, HeadersAgree,
      BTree.FirstValue, Leaf.Deleted, Allocator.Release;
    FirstIs(s.disk, id);
    if id in Dir(s.disk) {
      RunBelow(s, id);
      Remove(Entries(s.disk), id);
      EntryCount(s);
    }
  }

  lemma PartsOf(s: State)
    requires Coherent(s)
    ensures HeadersAgree(s.mem, s.disk) && FreeAgrees(s.mem, s.disk) && Indexed(s.disk)
    ensures s.mem.header.recordSize > 0 && PagesPer(s) == CalculatePagesNeeded(s.mem.header.recordSize)
    ensures Runs(s.disk.pages, PagesPer(s), Dir(s.disk)) && s.mem.header.recordCount == |Entries(s.disk)|
    ensures Data(s) == Records(s.disk.pages, s.mem.header.recordSize, Dir(s.disk))
    ensures forall id :: id in Data(s) <==> id in Dir(s.disk)
  {
    hide FreeAgrees, Indexed, Runs, Records, Operable;
  }

  /** Coherence and the records, from their parts. */
  lemma CoherentParts(r: State)
    requires HeadersAgree(r.mem, r.disk) && FreeAgrees(r.mem, r.disk) && Indexed(r.disk)
    requires Runs(r.disk.pages, CalculatePagesNeeded(r.mem.header.recordSize), Dir(r.disk))
    requires r.mem.header.recordCount == |Entries(r.disk)|
    ensures Coherent(r) && Data(r) == Records(r.disk.pages, r.mem.header.recordSize, Dir(r.disk))
    ensures NoneLost(r) ==> Owned(r.disk.pages, CalculatePagesNeeded(r.mem.header.recordSize), Dir(r.disk))
  {
    hide HeadersAgree, FreeAgrees, Indexed, Runs, Records, Owned, Operable;
  }

  // ---- What the writes leave on disk ----

  function WithEntries(d: Disk, mem: Memory, es: seq<DBJournalEntry>): Disk {
    if Journaling(mem) && d.journal.Some? then d.(journal := Some(d.journal.value + es)) else d
  }

  lemma JournaledEffect(d: Disk, mem: Memory, es: seq<DBJournalEntry>)
    requires Journaling(mem) ==> d.journal.Some?
    ensures ApplyAll(d, Journaled(mem, es)) == WithEntries(d, mem, es)
  {
    if Journaling(mem) {
      JournalAppended(d, es, |es|);
      assert JournalWrites(es)[..|es|] == JournalWrites(es) && es[..|es|] == es;
    }
  }

  /** Writing a record journals its pages and replaces them. */
  lemma RecordEffect(d: Disk, mem: Memory, op: byte, first: int32, id: int32, data: bytes, n: uint16)
    requires Journaling(mem) ==> d.journal.Some?
    requires 2 <= first && first - 2 + n <= |d.pages| <= Allocator.MAX_PAGES
    ensures ApplyAll(d, RecordWrites(mem, op, first, id, data, n))
         == WithEntries(d, mem, WriteEntries(op, first, id, data, n))
              .(pages := WithRun(d.pages, first - 2, id, data, n))
  {
    hide WriteEntries, PageWrites, Images, Overwrite, ApplyAll, Journaled;
    var es, images := WriteEntries(op, first, id, data, n), Images(id, data, n);
    JournaledEffect(d, mem, es);
    ApplyConcat(d, Journaled(mem, es), PageWrites(first, images));
    AllPagesWritten(WithEntries(d, mem, es), first, images);
  }

  lemma EraseEffect(d: Disk, mem: Memory, first: int32, id: int32, n: uint16)
    requires Journaling(mem) ==> d.journal.Some?
    requires 2 <= first && first - 2 + n <= |d.pages| <= Allocator.MAX_PAGES
    ensures ApplyAll(d, EraseWrites(mem, first, id, n))
         == WithEntries(d, mem, EraseEntries(first, id, n)).(pages := WithoutRun(d.pages, first - 2, n))
  {
    hide EraseEntries, PageWrites, Empties, Overwrite, ApplyAll, Journaled;
    var es, images := EraseEntries(first, id, n), Empties(n);
    JournaledEffect(d, mem, es);
    ApplyConcat(d, Journaled(mem, es), PageWrites(first, images));
    AllPagesWritten(WithEntries(d, mem, es), first, images);
  }

  lemma IndexEffect(d: Disk, es: seq<Leaf.Entry>)
    requires d.index.Ready? && |es| <= 60
    ensures ApplyAll(d, IndexWrites(d, es)) == d.(index := BTree.Ready(d.index.leaf.(entries := es)))
  {
    if es != d.index.leaf.entries {
      ApplyOne(d, IndexWrites(d, es)[0]);
      assert IndexWrites(d, es) == [IndexWrites(d, es)[0]];
    }
  }

  /** The disk after AddRecord has put the pages in place, whether or not the index then takes the id. */
  function AddedPages(s: State, data: bytes): Disk
    requires Operable(s) && Room(s)
  {
    var id, n := s.mem.header.nextRecordId, PagesPer(s);
    var a := Allocator.Allocate(s.mem.free, s.disk.pages, n);
    Allocator.AllocateInFile(s.mem.free, s.disk.pages, n);
    var d := s.disk.(pages := s.disk.pages + Empties(a.grown), free := a.free);
    WithEntries(d, s.mem, WriteEntries(JO_ADD, a.first, id, data, n))
      .(pages := WithRun(d.pages, a.first - 2, id, data, n))
  }

  lemma AddEffect(s: State, data: bytes)
    requires Operable(s) && Room(s)
    ensures var o, d := Add(s, data), AddedPages(s, data);
      var inserted := Leaf.Inserted(s.disk.index.leaf.entries, s.mem.header.nextRecordId,
                                    Allocator.Allocate(s.mem.free, s.disk.pages, PagesPer(s)).first);
      && (o.ok <==> inserted.Some?)
      && ApplyAll(s.disk, o.writes) ==
           if o.ok then
             d.(index := BTree.Ready(s.disk.index.leaf.(entries := inserted.value)), header := o.mem.header)
           else d
  {
    hide RecordWrites, IndexWrites, WithRun, Allocator.Allocate, Allocator.ListsFile, Leaf.Inserted, WriteEntries,
      ApplyAll, Spaced;
    var id, n := s.mem.header.nextRecordId, PagesPer(s);
    ListedBounded(s.mem.free, |s.disk.pages|);
    var a := Allocator.Allocate(s.mem.free, s.disk.pages, n);
    Allocator.AllocateInFile(s.mem.free, s.disk.pages, n);
    var o := Add(s, data);
    var mem := s.mem.(header := s.mem.header.(nextRecordId := id + 1), free := a.free);
    var d1 := s.disk.(pages := s.disk.pages + Empties(a.grown), free := a.free);
    Allocator.AllocateWrites(s.mem.free, s.disk, n);
    var record := RecordWrites(mem, JO_ADD, a.first, id, data, n);
    ApplyConcat(s.disk, a.writes, record);
    RecordEffect(d1, mem, JO_ADD, a.first, id, data, n);
    var d := AddedPages(s, data);
    assert ApplyAll(s.disk, a.writes + record) == d;
    if o.ok {
      var es := Leaf.Inserted(s.disk.index.leaf.entries, id, a.first).value;
      IndexEffect(d, es);
      SameIndexWrites(s.disk, d, es);
      ApplyConcat(s.disk, a.writes + record, IndexWrites(d, es));
      ApplyConcat(s.disk, a.writes + record + IndexWrites(d, es), [PutHeader(o.mem.header)]);
      ApplyOne(d.(index := BTree.Ready(d.index.leaf.(entries := es))), PutHeader(o.mem.header));
    }
  }

  lemma ListedBounded(f: DBFreeList, size: nat)
    requires Allocator.ListsFile(f, size)
    ensures Allocator.Bounded(f)
  {
  }

  lemma SameIndexWrites(d: Disk, d': Disk, es: seq<Leaf.Entry>)
    requires d.index.Ready? && d'.index == d.index && |es| <= 60
    ensures IndexWrites(d, es) == IndexWrites(d', es)
  {
  }

  lemma GrantedRange(s: State)
    requires Operable(s) && Room(s)
    ensures var a := Allocator.Allocate(s.mem.free, s.disk.pages, PagesPer(s));
      && 2 <= a.first && a.first - 2 + PagesPer(s) <= |s.disk.pages| + a.grown <= Allocator.MAX_PAGES
  {
    Allocator.AllocateInFile(s.mem.free, s.disk.pages, PagesPer(s));
  }

  /** The start of an id's run and the space behind it. */
  lemma SpaceBehind(s: State, id: int32)
    requires Operable(s) && BTree.FirstValue(s.disk.index, id).Some?
    ensures var first := BTree.FirstValue(s.disk.index, id).value;
      2 <= first && first - 2 + PagesPer(s) <= |s.disk.pages| <= Allocator.MAX_PAGES
  {
  }

  lemma UpdateEffectAt(s: State, id: int32, data: bytes)
    requires Operable(s) && BTree.FirstValue(s.disk.index, id).Some?
    ensures var first, n := BTree.FirstValue(s.disk.index, id).value, PagesPer(s);
      && 2 <= first && first - 2 + n <= |s.disk.pages| <= Allocator.MAX_PAGES
      && ApplyAll(s.disk, Update(s, id, data).writes)
         == WithEntries(s.disk, s.mem, WriteEntries(JO_UPDATE, first, id, data, n))
              .(pages := WithRun(s.disk.pages, first - 2, id, data, n))
  {
    SpaceBehind(s, id);
    RecordEffect(s.disk, s.mem, JO_UPDATE, BTree.FirstValue(s.disk.index, id).value, id, data, PagesPer(s));
  }

  lemma UpdateEffect(s: State, id: int32, data: bytes)
    requires Coherent(s) && id in Dir(s.disk)
    ensures var slot := Dir(s.disk)[id];
      0 <= slot && slot + PagesPer(s) <= |s.disk.pages| <= Allocator.MAX_PAGES &&
      ApplyAll(s.disk, Update(s, id, data).writes)
        == WithEntries(s.disk, s.mem, WriteEntries(JO_UPDATE, slot + 2, id, data, PagesPer(s)))
             .(pages := WithRun(s.disk.pages, slot, id, data, PagesPer(s)))
  {
    hide ApplyAll, Operable, Update, WriteEntries, WithRun, WithEntries, Runs, FreeAgrees, HeadersAgree, DirectoryOf,
      Singles, BTree.FirstValue;
    FirstIs(s.disk, id);
    UpdateEffectAt(s, id, data);
  }

  lemma DeleteEffectAt(s: State, id: int32)
    requires Operable(s) && BTree.FirstValue(s.disk.index, id).Some?
    ensures var first, n, o := BTree.FirstValue(s.disk.index, id).value, PagesPer(s), Delete(s, id);
      2 <= first && first - 2 + n <= |s.disk.pages| <= Allocator.MAX_PAGES &&
      var es := Leaf.Deleted(s.disk.index.leaf.entries, id);
      es.Some? && |es.value| <= 60 &&
      ApplyAll(s.disk, o.writes)
        == WithEntries(s.disk, s.mem, EraseEntries(first, id, n))
             .(pages := WithoutRun(s.disk.pages, first - 2, n), free := o.mem.free, header := o.mem.header,
               index := BTree.Ready(s.disk.index.leaf.(entries := es.value)))
  {
    hide EraseWrites, IndexWrites, WithoutRun, EraseEntries, ApplyAll, Allocator.Release, Apply, Allocator.ListsFile,
      Spaced;
    SpaceBehind(s, id);
    var first, n, o := BTree.FirstValue(s.disk.index, id).value, PagesPer(s), Delete(s, id);
    var es := Leaf.Deleted(s.disk.index.leaf.entries, id).value;
    EraseEffect(s.disk, s.mem, first, id, n);
    var d := ApplyAll(s.disk, EraseWrites(s.mem, first, id, n));
    var ws := EraseWrites(s.mem, first, id, n);
    ApplyConcat(s.disk, ws, IndexWrites(s.disk, es));
    SameIndexWrites(s.disk, d, es);
    IndexEffect(d, es);
    ApplyConcat(s.disk, ws + IndexWrites(s.disk, es), [PutFree(o.mem.free)]);
    var d' := ApplyAll(d, IndexWrites(s.disk, es));
    ApplyFree(d', o.mem.free);
    ApplyConcat(s.disk, ws + IndexWrites(s.disk, es) + [PutFree(o.mem.free)], [PutHeader(o.mem.header)]);
    ApplyHeader(d'.(free := o.mem.free), o.mem.header);
  }

  lemma DeleteEffect(s: State, id: int32)
    requires Coherent(s) && id in Dir(s.disk)
    ensures var slot, o := Dir(s.disk)[id], Delete(s, id);
      0 <= slot && slot + PagesPer(s) <= |s.disk.pages| <= Allocator.MAX_PAGES &&
      var es := Leaf.Deleted(Entries(s.disk), id);
      es.Some? && |es.value| <= 60 &&
      ApplyAll(s.disk, o.writes)
        == WithEntries(s.disk, s.mem, EraseEntries(slot + 2, id, PagesPer(s)))
             .(pages := WithoutRun(s.disk.pages, slot, PagesPer(s)), free := o.mem.free, header := o.mem.header,
               index := BTree.Ready(s.disk.index.leaf.(entries := es.value)))
  {
    hide ApplyAll, Operable, Delete, EraseEntries, WithoutRun, WithEntries, Runs, FreeAgrees, HeadersAgree,
      DirectoryOf, Singles, BTree.FirstValue, Leaf.Deleted;
    FirstIs(s.disk, id);
    DeleteEffectAt(s, id);
  }

  lemma ApplyFree(d: Disk, f: DBFreeList)
    ensures ApplyAll(d, [PutFree(f)]) == d.(free := f)
  {
    ApplyOne(d, PutFree(f));
  }

  lemma ApplyHeader(d: Disk, h: DBHeader)
    ensures ApplyAll(d, [PutHeader(h)]) == d.(header := h)
  {
    ApplyOne(d, PutHeader(h));
  }

  lemma EntryCount(s: State)
    requires Coherent(s)
    ensures |Entries(s.disk)| <= MAX_RECORDS
  {
    Leaf.SizeAtLeast(Entries(s.disk));
  }
}
