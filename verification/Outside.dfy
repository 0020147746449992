/** A crash in a record operation outside a transaction, where nothing is journaled and nothing is recovered. */
module Outside {
  import opened Words
  import opened DbTypes
  import opened Pages
  import opened Disk
  import opened Directories
  import opened Engine
  import opened Refinement
  import opened Journal
  import opened Recovery
  import opened Crash
  import opened Torn
  import opened Anchors
  import Allocator
  import BTree
  import Leaf

  /** Between operations and outside a transaction. */
  predicate Resting(s: State) {
    Full(s) && !s.mem.journalOpen && s.disk.header == s.mem.header
  }

  lemma RestingFacts(s: State)
    requires Resting(s)
    ensures Full(s) && Core(s) && Coherent(s) && Operable(s) && Indexed(s.disk) && s.disk.index.Ready?
    ensures !Journaling(s.mem) && !s.disk.header.journalPending && s.disk.header == s.mem.header
    ensures s.disk.leading == 2 && s.disk.header.signature == DB_SIGNATURE && GoodHeader(s.disk.header)
    ensures |s.disk.pages| <= Allocator.MAX_PAGES == 0x7FFF_FFFD
  {
    hide Runs, NoneLost, DirectoryOf, Singles, Allocator.Sound, Spaced;
  }

  // ---- UpdateRecord ----

  lemma UpdateCut(s: State, id: int32, data: bytes, k: nat)
    requires Resting(s) && id in Dir(s.disk) && k <= |Update(s, id, data).writes|
    ensures |Update(s, id, data).writes| == PagesPer(s)
    ensures 0 <= Dir(s.disk)[id] && Dir(s.disk)[id] + PagesPer(s) <= |s.disk.pages|
    ensures ApplyAll(s.disk, Update(s, id, data).writes[..k])
         == s.disk.(pages := Overwrite(s.disk.pages, Dir(s.disk)[id], Images(id, data, PagesPer(s))[..k]))
  {
    hide *;
    RestingFacts(s);
    UpdateIs(s, id, data);
    Unjournaled(s.mem, JO_UPDATE, Dir(s.disk)[id] + 2, id, data, PagesPer(s));
    PagesWritten(s.disk, Dir(s.disk)[id] + 2, Images(id, data, PagesPer(s)), k);
  }

  lemma Unjournaled(mem: Memory, op: byte, first: int32, id: int32, data: bytes, n: uint16)
    requires !Journaling(mem) && first + n <= 0x8000_0000
    ensures RecordWrites(mem, op, first, id, data, n) == PageWrites(first, Images(id, data, n))
    ensures EraseWrites(mem, first, id, n) == PageWrites(first, Empties(n))
    ensures |PageWrites(first, Images(id, data, n))| == n == |PageWrites(first, Empties(n))|
  {
    hide WriteEntries, PageWrites, JournalWrites, Images, EraseEntries;
  }

  // ---- DeleteRecord ----

  /** After the pages the index, the free list and the header are written. */
  lemma DeleteCut(s: State, id: int32, k: nat)
    requires Resting(s) && id in Dir(s.disk) && k <= |Delete(s, id).writes|
    ensures 0 <= Dir(s.disk)[id] && Dir(s.disk)[id] + PagesPer(s) <= |s.disk.pages|
    ensures var n, d, after := PagesPer(s), ApplyAll(s.disk, Delete(s, id).writes[..k]), After(s, Delete(s, id)).disk;
      && d == s.disk.(pages := d.pages, index := d.index, free := d.free, header := d.header)
      && d.pages == Overwrite(s.disk.pages, Dir(s.disk)[id], Empties(n)[..if k < n then k else n])
      && (k <= n ==> d.index == s.disk.index) && d.index in {s.disk.index, after.index}
      && d.header in {s.disk.header, after.header} && d.index.Ready?
  {
    hide *;
    RestingFacts(s);
    DeleteIs(s, id);
    var n, first := PagesPer(s), Dir(s.disk)[id] + 2;
    var none: bytes := Zeros(0);
    Unjournaled(s.mem, JO_DELETE, first, id, none, n);
    DeleteTail(s, id);
    var pw := PageWrites(first, Empties(n));
    var tail :| Delete(s, id).writes == pw + tail && TailTo(s.disk, After(s, Delete(s, id)).disk, tail);
    if k <= n {
      assert Delete(s, id).writes[..k] == pw[..k];
      PagesWritten(s.disk, first, Empties(n), k);
    } else {
      assert Delete(s, id).writes[..k] == pw + tail[..k - n];
      assert pw[..n] == pw;
      PagesWritten(s.disk, first, Empties(n), n);
      ApplyConcat(s.disk, pw, tail[..k - n]);
      TailPrefix(s.disk, After(s, Delete(s, id)).disk, tail, k - n, ApplyAll(s.disk, pw));
    }
  }

  /** Writes of the index, the free list and the header that lead to those of `after`. */
  predicate TailTo(before: Disk, after: Disk, ws: seq<Write>) {
    forall w :: w in ws ==>
      match w
      case PutFree(_) => true
      case PutHeader(h) => h == after.header
      case PutIndex(LeafWritten(l)) => BTree.Ready(l) == after.index
      case _ => false
  }

  lemma DeleteTail(s: State, id: int32)
    requires Resting(s) && id in Dir(s.disk)
    ensures 0 <= Dir(s.disk)[id] && Dir(s.disk)[id] + PagesPer(s) <= |s.disk.pages| <= 0x7FFF_FFFD
    ensures After(s, Delete(s, id)).disk.index.Ready?
    ensures exists tail ::
      Delete(s, id).writes == PageWrites(Dir(s.disk)[id] + 2, Empties(PagesPer(s))) + tail
      && TailTo(s.disk, After(s, Delete(s, id)).disk, tail)
  {
    hide ApplyAll, PageWrites, Empties, EraseEntries, WithoutRun, Runs, NoneLost, DirectoryOf, Singles, Operable,
      Allocator.Sound, Allocator.Release, EraseWrites, Leaf.Deleted, IdsBelow;
    DeleteIs(s, id);
    DeleteEffect(s, id);
    var none: bytes := Zeros(0);
    Unjournaled(s.mem, JO_DELETE, Dir(s.disk)[id] + 2, id, none, PagesPer(s));
    var es := Leaf.Deleted(Entries(s.disk), id).value;
    var tail := IndexWrites(s.disk, es) + [PutFree(Delete(s, id).mem.free)] + [PutHeader(Delete(s, id).mem.header)];
    assert Delete(s, id).writes == PageWrites(Dir(s.disk)[id] + 2, Empties(PagesPer(s))) + tail;
    TailIs(s.disk, After(s, Delete(s, id)).disk, es, Delete(s, id).mem.free, Delete(s, id).mem.header);
  }

  lemma TailIs(d: Disk, after: Disk, es: seq<Leaf.Entry>, f: DBFreeList, h: DBHeader)
    requires d.index.Ready? && |es| <= 60 && after.header == h
    requires after.index == BTree.Ready(d.index.leaf.(entries := es))
    ensures TailTo(d, after, IndexWrites(d, es) + [PutFree(f)] + [PutHeader(h)])
    ensures TailTo(d, after, IndexWrites(d, es) + [PutHeader(h)])
  {
  }

  lemma {:induction false} TailPrefix(before: Disk, after: Disk, ws: seq<Write>, k: nat, d: Disk)
    requires TailTo(before, after, ws) && k <= |ws| && d.index == before.index && d.header == before.header
    requires before.index.Ready? && after.index.Ready?
    ensures var e := ApplyAll(d, ws[..k]);
      && e == d.(index := e.index, free := e.free, header := e.header) && e.index.Ready?
      && e.index in {before.index, after.index} && e.header in {before.header, after.header}
  {
    if k > 0 {
      TailPrefix(before, after, ws, k - 1, d);
      assert ws[..k][..k - 1] == ws[..k - 1];
      assert ws[k - 1] in ws;
    }
  }

  // ---- AddRecord ----

  lemma AddTail(s: State, data: bytes)
    requires Resting(s) && Room(s) && |Entries(s.disk)| < MAX_RECORDS
    ensures var a, n, id := AddAllocation(s), PagesPer(s), s.mem.header.nextRecordId;
      && 2 <= a.first && a.first - 2 + n <= |s.disk.pages| + a.grown <= 0x7FFF_FFFD
      && After(s, Add(s, data)).disk.index.Ready? && Add(s, data).ok
      && ApplyAll(s.disk, a.writes) == s.disk.(pages := s.disk.pages + Empties(a.grown), free := a.free)
      && exists ws, w ::
           && Add(s, data).writes == a.writes + PageWrites(a.first, Images(id, data, n)) + (ws + [w])
           && ws == [PutIndex(BTree.LeafWritten(After(s, Add(s, data)).disk.index.leaf))]
  {
    hide ApplyAll, WriteEntries, PageWrites, Images, WithRun, Runs, NoneLost, Allocator.Allocate, Allocator.Sound,
      Leaf.Inserted, Empties, IdsBelow, Operable, RecordWrites, DirectoryOf, Singles;
    AllocatedIs(s);
    GrantedRange(s);
    Allocator.AllocateWrites(s.mem.free, s.disk, PagesPer(s));
    AddEffect(s, data);
    AddSucceeds(s, data);
    var n, o, a, id := PagesPer(s), Add(s, data), AddAllocation(s), s.mem.header.nextRecordId;
    var mem := s.mem.(header := s.mem.header.(nextRecordId := id + 1), free := a.free);
    Unjournaled(mem, JO_ADD, a.first, id, data, n);
    var es := Leaf.Inserted(Entries(s.disk), id, a.first).value;
    var ws, w := IndexWrites(s.disk, es), PutHeader(o.mem.header);
    assert o.writes == a.writes + PageWrites(a.first, Images(id, data, n)) + (ws + [w]);
    NextIsFree(s);
    Enter(Entries(s.disk), id, a.first);
    IndexWriteIs(s.disk, After(s, o).disk, es);
  }

  lemma IndexWriteIs(d: Disk, after: Disk, es: seq<Leaf.Entry>)
    requires d.index.Ready? && |es| <= 60 && after.index == BTree.Ready(d.index.leaf.(entries := es))
    requires es != d.index.leaf.entries
    ensures IndexWrites(d, es) == [PutIndex(BTree.LeafWritten(after.index.leaf))]
  {
  }

  /** How many of the record's pages are written: none before the pages are allocated, and all before the index is. */
  function PagesBy(s: State, k: nat): (j: nat)
    requires Operable(s) && Room(s)
    ensures j <= PagesPer(s)
  {
    var a, n := |AddAllocation(s).writes|, PagesPer(s);
    if k <= a then 0 else if k < a + n then k - a else n
  }

  /** The first `j` images are written, and in the end the index; the header is as before. With none of them written the
      file has grown by `e` pages. */
  predicate PartlyDone(before: Disk, index: BTree.IndexFile, grown: nat, slot: nat, images: Store, j: nat, e: nat,
                       indexed: bool, d: Disk) {
    && slot + |images| <= |before.pages| + grown && j <= |images| && e <= |images|
    && d == before.(pages := d.pages, index := if indexed then index else before.index, free := d.free)
    && d.index.Ready? && (indexed ==> j == |images|)
    && d.pages == (if j == 0 then before.pages + Empties(e)
                   else Overwrite(before.pages + Empties(grown), slot, images[..j]))
  }

  /** The disk after some but not all of an addition's writes: the header is as before, so the next id is not used. */
  lemma AddCut(s: State, data: bytes, k: nat) returns (e: nat)
    requires Resting(s) && Room(s) && |Entries(s.disk)| < MAX_RECORDS && k < |Add(s, data).writes|
    ensures 2 <= AddAllocation(s).first
    ensures PartlyDone(s.disk, After(s, Add(s, data)).disk.index, AddAllocation(s).grown, AddAllocation(s).first - 2,
                       Images(s.mem.header.nextRecordId, data, PagesPer(s)), PagesBy(s, k), e,
                       k == |Add(s, data).writes| - 1, ApplyAll(s.disk, Add(s, data).writes[..k]))
  {
    hide *;
    RestingFacts(s);
    AddTail(s, data);
    AllocatedIs(s);
    var a, n, id, after := AddAllocation(s), PagesPer(s), s.mem.header.nextRecordId, After(s, Add(s, data)).disk;
    var images, writes := Images(id, data, n), Add(s, data).writes;
    var ws, w :|
      writes == a.writes + PageWrites(a.first, images) + (ws + [w])
      && ws == [PutIndex(BTree.LeafWritten(after.index.leaf))];
    ImagesLength(id, data, n);
    PagesByIs(s, k);
    SizesAdd(s);
    e := CutWithin(s.disk, after, s.mem.free, n, images, writes, ws, w, k);
  }

  /** The same for the writes of any allocation, of pages and of the index. */
  lemma CutWithin(before: Disk, after: Disk, f: DBFreeList, n: uint16, images: Store, writes: seq<Write>,
                  ws: seq<Write>, w: Write, k: nat)
    returns (e: nat)
    requires Allocator.Bounded(f) && n >= 1 && |before.pages| + n <= Allocator.MAX_PAGES && |images| == n
    requires var a := Allocator.Allocate(f, before.pages, n);
      && 2 <= a.first && a.first - 2 + n <= |before.pages| + a.grown <= Allocator.MAX_PAGES
      && ApplyAll(before, a.writes) == before.(pages := before.pages + Empties(a.grown), free := a.free)
      && writes == a.writes + PageWrites(a.first, images) + (ws + [w])
    requires before.index.Ready? && after.index.Ready? && ws == [PutIndex(BTree.LeafWritten(after.index.leaf))]
    requires k < |writes|
    ensures var a := Allocator.Allocate(f, before.pages, n);
      var aw := |a.writes|;
      PartlyDone(before, after.index, a.grown, a.first - 2, images,
                 if k <= aw then 0 else if k < aw + n then k - aw else n, e, k == |writes| - 1,
                 ApplyAll(before, writes[..k]))
  {
    hide *;
    LastPage();
    var a := Allocator.Allocate(f, before.pages, n);
    var pw := PageWrites(a.first, images);
    e := 0;
    PrefixOf(a.writes, pw, ws, w, k);
    PageWritesLength(a.first, images);
    if k <= |a.writes| {
      var g;
      e, g := AllocationPrefix(f, before, n, k);
      NoneWritten(before, after.index, a.grown, a.first - 2, images, e, g);
    } else {
      var t := k - |a.writes|;
      ApplyConcat(before, a.writes, (pw + ws)[..t]);
      SomeWritten(before, after, ApplyAll(before, a.writes), a.grown, a.first, images, ws, t);
    }
  }

  lemma LastPage()
    ensures Allocator.MAX_PAGES == 0x7FFF_FFFD
  {
  }

  lemma PageWritesLength(first: int32, pages: Store)
    requires first + |pages| <= 0x8000_0000
    ensures |PageWrites(first, pages)| == |pages|
  {
  }

  lemma PrefixOf(a: seq<Write>, b: seq<Write>, c: seq<Write>, w: Write, k: nat)
    requires k < |a + b + (c + [w])|
    ensures k <= |a| ==> (a + b + (c + [w]))[..k] == a[..k]
    ensures k > |a| ==> (a + b + (c + [w]))[..k] == a + (b + c)[..k - |a|]
    ensures |a + b + (c + [w])| == |a| + |b| + |c| + 1
  {
    assert (a + b + (c + [w]))[..|a| + |b| + |c|] == a + (b + c);
  }

  lemma NoneWritten(before: Disk, index: BTree.IndexFile, grown: nat, slot: nat, images: Store, e: nat, g: DBFreeList)
    requires slot + |images| <= |before.pages| + grown && e <= |images| && before.index.Ready?
    ensures PartlyDone(before, index, grown, slot, images, 0, e, false,
      before.(free := g, pages := before.pages + Empties(e)))
  {
  }

  lemma SomeWritten(before: Disk, after: Disk, d: Disk, grown: nat, first: int32, images: Store, ws: seq<Write>, t: nat)
    requires 2 <= first && first - 2 + |images| <= |before.pages| + grown <= Allocator.MAX_PAGES
    requires d == before.(free := d.free, pages := before.pages + Empties(grown)) && before.index.Ready?
    requires after.index.Ready? && ws == [PutIndex(BTree.LeafWritten(after.index.leaf))]
    requires 1 <= t <= |images| + 1 && |images| >= 1
    ensures t <= |PageWrites(first, images) + ws|
    ensures PartlyDone(before, after.index, grown, first - 2, images, if t < |images| then t else |images|, 0,
                       t == |images| + 1, ApplyAll(d, (PageWrites(first, images) + ws)[..t]))
  {
    hide *;
    LastPage();
    PageWritesLength(first, images);
    var pw, n := PageWrites(first, images), |images|;
    var j := if t < n then t else n;
    PagesWritten(d, first, images, j);
    if t <= n {
      assert (pw + ws)[..t] == pw[..j];
    } else {
      assert (pw + ws)[..t] == pw + ws && pw[..j] == pw;
      ApplyLast(d, pw, ws[0]);
      ApplyIndexWrite(ApplyAll(d, pw), ws[0]);
    }
    SomeDone(before, after.index, grown, first - 2, images, j, t == n + 1, ApplyAll(d, (pw + ws)[..t]));
  }

  lemma ApplyIndexWrite(d: Disk, w: Write)
    requires w.PutIndex? && w.change.LeafWritten?
    ensures d.index.Ready? ==> Apply(d, w) == d.(index := BTree.Ready(w.change.leaf))
  {
  }

  lemma SomeDone(before: Disk, index: BTree.IndexFile, grown: nat, slot: nat, images: Store, j: nat, indexed: bool,
                 d: Disk)
    requires slot + |images| <= |before.pages| + grown && 1 <= j <= |images| && before.index.Ready? && index.Ready?
    requires d == before.(pages := d.pages, index := if indexed then index else before.index, free := d.free)
    requires indexed ==> j == |images|
    requires d.pages == Overwrite(before.pages + Empties(grown), slot, images[..j])
    ensures PartlyDone(before, index, grown, slot, images, j, 0, indexed, d)
  {
    hide Overwrite;
  }

  lemma ImagesLength(id: int32, data: bytes, n: nat)
    ensures |Images(id, data, n)| == n
  {
  }

  lemma SizesAdd(s: State)
    requires Room(s)
    ensures |s.disk.pages| + PagesPer(s) <= Allocator.MAX_PAGES
  {
  }

  lemma PagesByIs(s: State, k: nat)
    requires Operable(s) && Room(s)
    ensures var a, n := |AddAllocation(s).writes|, PagesPer(s);
      PagesBy(s, k) == if k <= a then 0 else if k < a + n then k - a else n
  {
    hide AddAllocation, PagesPer;
  }

  // ---- What opening finds ----

  /** Opening the disk succeeds, and lookups are lookups in the map. */
  predicate FindsAfter(d: Disk, data: map<int32, bytes>) {
    Opens(d) && forall id :: FindRecord(Reopened(d), id) == if id in data then Some(data[id]) else None
  }

  lemma FindsIn(d: Disk, data: map<int32, bytes>)
    requires d.leading == 2 && !d.header.journalPending && d.header.signature == DB_SIGNATURE
    requires d.index != BTree.NoHeader
    requires forall id ::
      FindRecord(State(Memory(d.header, d.free, false), d), id) == if id in data then Some(data[id]) else None
    ensures FindsAfter(d, data)
  {
    hide FindRecord;
    ApplyNone(d);
  }

  /** Lookups depend on the pages, the index and the record size alone. */
  lemma LookupIs(mem: Memory, d: Disk, id: int32)
    ensures FindRecord(State(mem, d), id)
         == match BTree.FirstValue(d.index, id)
            case None => None
            case Some(first) => ReadAt(d.pages, mem.header.recordSize, (first as int) - 2, id)
  {
    hide BTree.FirstValue, IsRun, Content;
  }

  /** What a start of the old index or of the new reads. */
  lemma DirectoryReads(pages: Store, size: uint16, dir: Directory, id: int32)
    requires Runs(pages, CalculatePagesNeeded(size), dir) && id in dir
    ensures id in Records(pages, size, dir) && ReadAt(pages, size, dir[id], id) == Some(Records(pages, size, dir)[id])
  {
    hide Content;
    assert IsRun(pages, dir[id], id, CalculatePagesNeeded(size));
    assert Records(pages, size, dir)[id] == RecordAt(pages, size, dir, id);
  }

  /** An update cut short outside a transaction after `k` pages: the record has the new data in its first `k` pages
      and the old data in the others, and every other record is as it was. */
  lemma UpdateCutReads(s: State, id: int32, data: bytes, k: nat)
    requires Resting(s) && id in Data(s) && |data| == s.mem.header.recordSize && k <= |Update(s, id, data).writes|
    ensures |Data(s)[id]| == |data|
    ensures FindsAfter(ApplyAll(s.disk, Update(s, id, data).writes[..k]), Data(s)[id := Mixed(Data(s)[id], data, k)])
  {
    hide *;
    RestingFacts(s);
    PartsOf(s);
    TornFacts(s);
    UpdateCut(s, id, data, k);
    var d, size, dir := ApplyAll(s.disk, Update(s, id, data).writes[..k]), s.mem.header.recordSize, Dir(s.disk);
    TornRecords(s.disk.pages, size, dir, id, data, k);
    var data' := Data(s)[id := Mixed(Data(s)[id], data, k)];
    forall x
      ensures FindRecord(State(Memory(d.header, d.free, false), d), x) == if x in data' then Some(data'[x]) else None
    {
      LookupIs(Memory(d.header, d.free, false), d, x);
      FirstIs(s.disk, x);
      if x in dir {
        DirectoryReads(d.pages, size, dir, x);
      }
    }
    NoHeaderIs(d.index);
    FindsIn(d, data');
  }

  lemma NoHeaderIs(f: BTree.IndexFile)
    ensures f.Ready? ==> f != BTree.NoHeader
  {
  }

  /** A deletion cut short outside a transaction: the record is gone as soon as its first page is emptied, and every
      other record is as it was. */
  lemma DeleteCutReads(s: State, id: int32, k: nat)
    requires Resting(s) && id in Data(s) && k <= |Delete(s, id).writes|
    ensures FindsAfter(ApplyAll(s.disk, Delete(s, id).writes[..k]), if k == 0 then Data(s) else Data(s) - {id})
  {
    hide *;
    RestingFacts(s);
    PartsOf(s);
    TornFacts(s);
    DeleteCut(s, id, k);
    DeleteHeader(s, id);
    CoherentAnchored(s);
    AnchoredDelete(s, id);
    var d, n, size, dir := ApplyAll(s.disk, Delete(s, id).writes[..k]), PagesPer(s), s.mem.header.recordSize,
      Dir(s.disk);
    var data' := if k == 0 then Data(s) else Data(s) - {id};
    var m := if k < n then k else n;
    if k == 0 {
      OverwriteNothing(s.disk.pages, dir[id], Empties(n));
    } else {
      ErasedPages(s.disk.pages, size, dir, id, m);
      ErasedStart(s.disk.pages, dir[id], n, m);
    }
    forall x
      ensures FindRecord(State(Memory(d.header, d.free, false), d), x) == if x in data' then Some(data'[x]) else None
    {
      LookupIs(Memory(d.header, d.free, false), d, x);
      FirstIs(s.disk, x);
      StartIs(s, x);
      StartIs(After(s, Delete(s, id)), x);
      if x in data' {
        DirectoryReads(d.pages, size, if k == 0 then dir else dir - {id}, x);
      } else if x in dir {
        ReadFails(d.pages, size, dir[id], id, dir[id]);
      }
    }
    NoHeaderIs(d.index);
    FindsIn(d, data');
  }

  lemma StartIs(s: State, x: int32)
    ensures match BTree.FirstValue(s.disk.index, x)
      case None => Start(s, x) == None
      case Some(first) => Start(s, x) == Some((first as int) - 2)
  {
  }

  lemma ErasedStart(pages: Store, slot: nat, n: nat, m: nat)
    requires slot + n <= |pages| && 1 <= m <= n
    ensures Overwrite(pages, slot, Empties(n)[..m])[slot].status == PS_EMPTY != StatusOf(0)
  {
  }

  lemma DeleteHeader(s: State, id: int32)
    requires Resting(s) && id in Dir(s.disk)
    ensures var h := After(s, Delete(s, id)).disk.header;
      && h == s.mem.header.(recordCount := h.recordCount) && !h.journalPending && h.signature == DB_SIGNATURE
      && h.recordSize == s.mem.header.recordSize
  {
    hide ApplyAll, EraseEntries, WithoutRun, Runs, NoneLost, DirectoryOf, Singles, Operable, Allocator.Sound,
      Allocator.Release, EraseWrites, Leaf.Deleted, IdsBelow, IndexWrites;
    DeleteIs(s, id);
    DeleteEffect(s, id);
  }

  /** An addition cut short outside a transaction before its header write: the new record is found exactly when its
      index entry is there already, by the last write before that of the header; every other record is as it was. The
      next id is not used up. */
  lemma AddCutReads(s: State, data: bytes, k: nat)
    requires Resting(s) && Room(s) && |Entries(s.disk)| < MAX_RECORDS && |data| == s.mem.header.recordSize
    requires k < |Add(s, data).writes|
    ensures var d, id := ApplyAll(s.disk, Add(s, data).writes[..k]), s.mem.header.nextRecordId;
      && d.header.nextRecordId == id
      && FindsAfter(d, if k == |Add(s, data).writes| - 1 then Data(s)[id := data] else Data(s))
  {
    hide *;
    RestingFacts(s);
    PartsOf(s);
    TornFacts(s);
    AllocatedIs(s);
    CoherentAnchored(s);
    NextIsFree(s);
    AnchoredParts(s);
    StartAfterAdd(s, data);
    AddSucceeds(s, data);
    var e := AddCut(s, data, k);
    var a, n, id, size, dir, indexed := AddAllocation(s), PagesPer(s), s.mem.header.nextRecordId,
      s.mem.header.recordSize, Dir(s.disk), k == |Add(s, data).writes| - 1;
    var d, slot, base, j := ApplyAll(s.disk, Add(s, data).writes[..k]), a.first - 2, s.disk.pages + Empties(a.grown),
      PagesBy(s, k);
    var data' := if indexed then Data(s)[id := data] else Data(s);
    PartlyDoneIs(s.disk, After(s, Add(s, data)).disk.index, a.grown, slot, Images(id, data, n), j, e, indexed, d);
    Extend(s.disk.pages, size, dir, e);
    Extend(s.disk.pages, size, dir, a.grown);
    if j > 0 {
      PartialPages(base, size, dir, slot, id, data, j);
    }
    if indexed {
      WholeImages(base, slot, id, data, n);
      ReadWritten(base, size, slot, id, data);
    }
    forall x
      ensures FindRecord(State(Memory(d.header, d.free, false), d), x) == if x in data' then Some(data'[x]) else None
    {
      LookupIs(Memory(d.header, d.free, false), d, x);
      FirstIs(s.disk, x);
      StartIs(s, x);
      StartIs(After(s, Add(s, data)), x);
      KeyIs(s, id);
      if x in dir {
        DirectoryReads(d.pages, size, dir, x);
      }
    }
    NoHeaderIs(d.index);
    FindsIn(d, data');
  }

  lemma NextIsFree(s: State)
    requires Full(s)
    ensures s.mem.header.nextRecordId !in Dir(s.disk)
  {
    hide NoneLost, Runs, FreeAgrees, DirectoryOf, Singles, Operable;
  }

  lemma PartlyDoneIs(before: Disk, index: BTree.IndexFile, grown: nat, slot: nat, images: Store, j: nat, e: nat,
                     indexed: bool, d: Disk)
    requires PartlyDone(before, index, grown, slot, images, j, e, indexed, d)
    ensures slot + |images| <= |before.pages| + grown && j <= |images| && e <= |images|
    ensures d == before.(pages := d.pages, index := if indexed then index else before.index, free := d.free)
    ensures d.index.Ready? && (indexed ==> j == |images|)
    ensures j == 0 ==> d.pages == before.pages + Empties(e)
    ensures j > 0 ==> d.pages == Overwrite(before.pages + Empties(grown), slot, images[..j])
    ensures d.leading == before.leading && d.header == before.header
  {
    hide Overwrite;
  }

  lemma WholeImages(pages: Store, slot: nat, id: int32, data: bytes, n: nat)
    requires slot + n <= |pages|
    ensures |Images(id, data, n)| == n
    ensures Overwrite(pages, slot, Images(id, data, n)[..n]) == WithRun(pages, slot, id, data, n)
  {
    hide Overwrite, Images;
    assert Images(id, data, n)[..n] == Images(id, data, n);
  }
}
