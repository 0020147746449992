/** An open database: its files, the state in memory, and the operations that change both. */
module Database {
  import opened Words
  import opened DbTypes
  import opened Pages
  import opened Disk
  import opened Directories
  import opened Engine
  import opened Refinement
  import opened Maintenance
  import opened Journal
  import opened Recovery
  import opened Compaction
  import opened Files
  import Allocator
  import BTree
  import Crc
  import DbCodec
  import Leaf
  import opened Lookup
  import opened Formats
  import opened Headers
  import Strings

  class Database {
    var dataFile: seq<bytes>
    var journalFile: Option<seq<bytes>>
    const primaryIndex: BTree.BTree
    const secondary: seq<BTree.BTree>

    var header: DBHeader
    var freePageCount: uint16
    var freePageListLen: uint16
    const freePages: array<int32>
    var journalOpen: bool
    var isOpen: bool
    const crc: Crc.CrcTable

    /** Every atomic write made to the files so far. */
    ghost var trace: seq<Write>

    /** The files are whole, the handles match them, and the changes of the index file in the trace are exactly those
        that the index object logged. */
    ghost predicate Valid()
      reads `dataFile, `journalFile, `journalOpen, `isOpen, primaryIndex, crc, crc.table, `trace
    {
      && freePages.Length == DB_MAX_FREE_PAGES && |secondary| == 0x100 && primaryIndex !in secondary
      && Blocks(dataFile, DB_PAGE_SIZE)
      && (journalFile.Some? ==> Blocks(journalFile.value, DB_JOURNAL_ENTRY_SIZE))
      && (journalOpen ==> journalFile.Some?)
      && primaryIndex.Valid() && crc.Valid()
      && (isOpen ==> |dataFile| >= 2 && primaryIndex.isOpen)
      && |dataFile| <= Allocator.MAX_PAGES + 2
      && IndexPart(trace) == primaryIndex.log
    }

    ghost function DiskView(): Disk
      requires Valid() && |dataFile| >= 2
      reads `dataFile, `journalFile, `journalOpen, `isOpen, primaryIndex, crc, crc.table, `trace
    {
      Disk(2, DbCodec.DecodeHeader(dataFile[0]), DbCodec.DecodeFreeList(dataFile[1]), DecodePages(dataFile),
           if journalFile.None? then None else Some(DecodeEntries(journalFile.value)), primaryIndex.View())
    }

    ghost function MemoryView(): Memory
      requires freePages.Length == DB_MAX_FREE_PAGES
      reads `header, `freePageCount, `freePageListLen, `journalOpen, freePages
    {
      Memory(header, FreeList(freePageCount, freePageListLen, freePages[..]), journalOpen)
    }

    ghost function View(): State
      requires Valid() && |dataFile| >= 2
      reads `dataFile, `journalFile, `journalOpen, `isOpen, primaryIndex, crc, crc.table, `trace, `header,
        `freePageCount, `freePageListLen, freePages
    {
      State(MemoryView(), DiskView())
    }

    /** Since the disk was `d` and the trace `t` exactly the given writes were made. */
    ghost predicate Wrote(d: Disk, t: seq<Write>, ws: seq<Write>)
      reads `dataFile, `journalFile, `journalOpen, `isOpen, primaryIndex, crc, crc.table, `trace
    {
      Valid() && |dataFile| >= 2 && trace == t + ws && DiskView() == ApplyAll(d, ws)
    }

    /** A closed handle, before any of its files exists. */
    constructor (secondary: seq<BTree.BTree>)
      requires |secondary| == 0x100
      ensures Valid() && !isOpen && dataFile == [] && journalFile.None? && trace == []
    {
      dataFile, journalFile, journalOpen, isOpen := [], None, false, false;
      header := DbCodec.DecodeHeader(Zeros(DB_PAGE_SIZE));
      freePageCount, freePageListLen := 0, 0;
      freePages := new int32[DB_MAX_FREE_PAGES](_ => 0);
      primaryIndex := new BTree.BTree();
      this.secondary := secondary;
      crc := new Crc.CrcTable();
      trace := [];
    }

    // ---- Page input and output ----

    method WriteHeaderToDisk()
      requires Valid() && |dataFile| >= 2
      modifies `dataFile, `trace
      ensures Valid() && |dataFile| == old(|dataFile|)
      ensures trace == old(trace) + [PutHeader(header)] && DiskView() == Apply(old(DiskView()), PutHeader(header))
    {
      hide IndexPart, DbCodec.HeaderBytes, DbCodec.DecodeHeader, DbCodec.DecodePage, DbCodec.DecodeFreeList,
        DbCodec.DecodeJournal, Crc.CrcTable.Valid, BTree.BTree.Valid, BTree.DecodeFile, DecodePages, DecodeEntries;
      var buf := new byte[DB_PAGE_SIZE];
      DbCodec.SerializeHeader(header, buf);
      DbCodec.HeaderRoundTrip(header);
      dataFile := dataFile[0 := buf[..]];
      IndexPartOne(trace, PutHeader(header));
      trace := trace + [PutHeader(header)];
    }

    method WriteFreeListToDisk()
      requires Valid() && |dataFile| >= 2
      modifies `dataFile, `trace
      ensures Valid() && |dataFile| == old(|dataFile|)
      ensures trace == old(trace) + [PutFree(MemoryView().free)]
      ensures DiskView() == Apply(old(DiskView()), PutFree(MemoryView().free))
    {
      hide IndexPart, DbCodec.FreeListBytes, DbCodec.DecodeHeader, DbCodec.DecodePage, DbCodec.DecodeFreeList,
        DbCodec.DecodeJournal, Crc.CrcTable.Valid, BTree.BTree.Valid, BTree.DecodeFile, DecodePages, DecodeEntries;
      var buf := new byte[DB_PAGE_SIZE];
      var free := FreeList(freePageCount, freePageListLen, freePages[..]);
      DbCodec.SerializeFreeList(free, buf);
      DbCodec.FreeListRoundTrip(free);
      dataFile := dataFile[1 := buf[..]];
      IndexPartOne(trace, PutFree(free));
      trace := trace + [PutFree(free)];
    }

    method WritePageToDisk(num: int32, page: DBPage)
      requires Valid() && |dataFile| >= 2 && 2 <= num <= Allocator.MAX_PAGES + 1
      modifies `dataFile, `trace
      ensures Valid() && |dataFile| == if num < old(|dataFile|) then old(|dataFile|) else num + 1
      ensures trace == old(trace) + [PutPage(num, page)] && DiskView() == Apply(old(DiskView()), PutPage(num, page))
    {
      hide IndexPart, DbCodec.PageBytes, DbCodec.DecodeHeader, DbCodec.DecodePage, DbCodec.DecodeFreeList,
        DbCodec.DecodeJournal, DecodePages, StorePage, Crc.CrcTable.Valid, BTree.BTree.Valid, BTree.DecodeFile,
        DecodeEntries;
      var buf := new byte[DB_PAGE_SIZE];
      DbCodec.SerializePage(page, buf);
      StoredPage(dataFile, num, page);
      dataFile := StoreBlock(dataFile, num, buf[..]);
      IndexPartOne(trace, PutPage(num, page));
      trace := trace + [PutPage(num, page)];
    }

    method ReadPageFromDisk(num: int) returns (ok: bool, page: DBPage)
      requires Valid()
      ensures ok <==> 0 <= num < |dataFile|
      ensures ok ==> page == DbCodec.DecodePage(dataFile[num])
      ensures ok && num >= 2 ==> page == DiskView().pages[num - 2]
    {
      ok, page := false, EMPTY_PAGE;
      if 0 <= num < |dataFile| {
        ok, page := true, DbCodec.DecodePage(dataFile[num]);
      }
    }

    function GetTotalPages(): (n: int32)
      requires |dataFile| <= Allocator.MAX_PAGES + 2
      reads this
      ensures n == |dataFile|
    {
      |dataFile|
    }

    /** The entry with its checksum, and its bytes. */
    static method SealEntry(crc: Crc.CrcTable, entry: DBJournalEntry) returns (e: DBJournalEntry, block: bytes)
      requires crc.Valid()
      modifies crc, crc.table
      ensures crc.Valid() && e == DbCodec.Sealed(entry)
      ensures |block| == DB_JOURNAL_ENTRY_SIZE && DbCodec.DecodeJournal(block) == e
    {
      hide DbCodec.DecodeJournal, DbCodec.JournalBytes, DbCodec.ComputeChecksum;
      var checksum := DbCodec.ComputeJournalChecksum(crc, entry);
      e := entry.(checksum := checksum);
      var buf := new byte[DB_JOURNAL_ENTRY_SIZE];
      DbCodec.SerializeJournalEntry(e, buf);
      DbCodec.JournalRoundTrip(e, buf[..]);
      block := buf[..];
    }

    method WriteJournalEntry(entry: DBJournalEntry) returns (ok: bool)
      requires Valid() && |dataFile| >= 2
      modifies `journalFile, `trace, crc, crc.table
      ensures Valid() && ok == journalOpen
      ensures ok ==> trace == old(trace) + [AppendJournal(DbCodec.Sealed(entry))]
      ensures ok ==> DiskView() == Apply(old(DiskView()), AppendJournal(DbCodec.Sealed(entry)))
      ensures !ok ==> trace == old(trace) && journalFile == old(journalFile) && DiskView() == old(DiskView())
      ensures MemoryView() == old(MemoryView())
    {
      hide IndexPart, DbCodec.DecodeHeader, DbCodec.DecodePage, DbCodec.DecodeFreeList, DbCodec.DecodeJournal,
        DbCodec.JournalBytes, DbCodec.ComputeChecksum, DecodePages, DecodeEntries, DbCodec.Sealed,
        Crc.CrcTable.Valid, BTree.BTree.Valid, BTree.DecodeFile;
      if !journalOpen {
        return false;
      }
      var e, block := SealEntry(crc, entry);
      AppendedEntry(journalFile.value, block);
      journalFile := Some(journalFile.value + [block]);
      IndexPartOne(trace, AppendJournal(e));
      trace := trace + [AppendJournal(e)];
      return true;
    }

    // ---- Free pages ----

    /** The search of the list for one page. */
    method IsListed(p: int) returns (found: bool)
      requires freePages.Length == DB_MAX_FREE_PAGES && freePageListLen <= DB_MAX_FREE_PAGES
      ensures found <==> p in Allocator.Listed(MemoryView().free)
    {
      for k := 0 to freePageListLen
        invariant p !in freePages[..k]
      {
        if freePages[k] == p {
          assert Allocator.Listed(MemoryView().free)[k] == p;
          return true;
        }
      }
      assert Allocator.Listed(MemoryView().free) == freePages[..freePageListLen];
      return false;
    }

    /** Whether the pages after `first` in a run of `n` are all on the list. */
    method RunIsListed(first: int32, n: uint16) returns (found: bool)
      requires freePages.Length == DB_MAX_FREE_PAGES && freePageListLen <= DB_MAX_FREE_PAGES && n >= 1
      ensures found <==> Allocator.RunListed(Allocator.Listed(MemoryView().free), first, n)
    {
      hide Allocator.Listed;
      for j := 1 to n
        invariant Allocator.RunListed(Allocator.Listed(MemoryView().free), first, j)
      {
        var pageFound := IsListed(first + j);
        if !pageFound {
          return false;
        }
      }
      return true;
    }

    /** Removes one page from the list by moving the later entries down. */
    method RemoveListed(p: int)
      requires freePages.Length == DB_MAX_FREE_PAGES && freePageListLen <= DB_MAX_FREE_PAGES
      modifies `freePageListLen, freePages
      ensures MemoryView().free == Allocator.RemoveFirst(old(MemoryView()).free, p)
    {
      ghost var f := MemoryView().free;
      assert Allocator.Listed(f) == freePages[..freePageListLen];
      var k := 0;
      while k < freePageListLen
        invariant 0 <= k <= freePageListLen && p !in freePages[..k]
      {
        if freePages[k] == p {
          BTree.BTree.FirstPosition(Allocator.Listed(f), p, k);
          ShiftDown(k);
          assert p in Allocator.Listed(f);
          return;
        }
        k := k + 1;
      }
    }

    method ShiftDown(k: nat)
      requires freePages.Length == DB_MAX_FREE_PAGES && k < freePageListLen <= DB_MAX_FREE_PAGES
      modifies `freePageListLen, freePages
      ensures freePageListLen == old(freePageListLen) - 1
      ensures freePages[..]
        == old(freePages[..k] + freePages[k + 1..freePageListLen] + freePages[freePageListLen - 1..])
    {
      freePageListLen := freePageListLen - 1;
      for m := k to freePageListLen
        invariant freePageListLen == old(freePageListLen) - 1
        invariant forall j :: 0 <= j < DB_MAX_FREE_PAGES ==>
          freePages[j] == if k <= j < m then old(freePages[j + 1]) else old(freePages[j])
      {
        freePages[m] := freePages[m + 1];
      }
    }

    method RemoveRunListed(first: int32, n: uint16)
      requires freePages.Length == DB_MAX_FREE_PAGES && freePageListLen <= DB_MAX_FREE_PAGES
      modifies `freePageListLen, freePages
      ensures MemoryView().free == Allocator.RemoveRun(old(MemoryView()).free, first, n)
    {
      hide Allocator.RemoveFirst;
      ghost var f := MemoryView().free;
      for j := 0 to n
        invariant freePageListLen <= DB_MAX_FREE_PAGES
        invariant MemoryView().free == Allocator.RemoveRun(f, first, j)
      {
        RemoveListed(first + j);
      }
    }

    /** Refills the list from the pages of the file. */
    method UpdateFreePages() returns (ok: bool)
      requires Valid()
      modifies `freePageCount, `freePageListLen, freePages, `dataFile, `trace
      ensures Valid() && ok == isOpen && |dataFile| == old(|dataFile|)
      ensures !ok ==> dataFile == old(dataFile) && trace == old(trace) && MemoryView() == old(MemoryView())
      ensures ok ==> MemoryView() == UpdateFree(old(View())).mem
      ensures ok ==> Wrote(old(DiskView()), old(trace), UpdateFree(old(View())).writes)
    {
      hide IndexPart, Crc.CrcTable.Valid, BTree.BTree.Valid, BTree.DecodeFile, DbCodec.DecodePage,
        DbCodec.DecodeHeader, DbCodec.DecodeFreeList;
      if !isOpen {
        return false;
      }
      ghost var pages, d := DiskView().pages, DiskView();
      CollectFree();
      WriteFreeListToDisk();
      ApplyOne(d, PutFree(MemoryView().free));
      return true;
    }

    /** Blanks the list. */
    method ClearSlots()
      requires freePages.Length == DB_MAX_FREE_PAGES
      modifies freePages
      ensures freePages[..] == seq(DB_MAX_FREE_PAGES, _ => 0)
    {
      for k := 0 to DB_MAX_FREE_PAGES
        invariant forall j :: 0 <= j < k ==> freePages[j] == 0
      {
        freePages[k] := 0;
      }
    }

    /** Counts and lists one more empty page. */
    method NoteFree(ghost e: seq<int32>, count: uint16, len: uint16, page: int32) returns (count': uint16, len': uint16)
      requires Collected(e, count, len, freePages[..])
      modifies freePages
      ensures Collected(e + [page], count', len', freePages[..])
    {
      hide Collected;
      MoreCollected(e, count, len, freePages[..], page);
      CollectedLength(e, count, len, freePages[..]);
      count', len' := (count as int + 1) % 0x1_0000, len;
      if len < DB_MAX_FREE_PAGES {
        freePages[len] := page;
        len' := len + 1;
      }
    }

    lemma Shape()
      requires Valid() && (isOpen || |dataFile| >= 2)
      ensures freePages.Length == DB_MAX_FREE_PAGES && 2 <= |dataFile| <= Allocator.MAX_PAGES + 2
        && |secondary| == 0x100
      ensures |DiskView().pages| == |dataFile| - 2 && DiskView().leading == 2 && (isOpen ==> primaryIndex.isOpen)
    {
      hide IndexPart, Crc.CrcTable.Valid, BTree.BTree.Valid, BTree.DecodeFile, DbCodec.DecodePage,
        DbCodec.DecodeHeader, DbCodec.DecodeFreeList;
    }

    /** Counts the empty pages, modulo 2^16, and lists the lowest of them. */
    method CollectFree()
      requires Valid() && |dataFile| >= 2
      modifies `freePageCount, `freePageListLen, freePages
      ensures Valid() && MemoryView() == old(MemoryView()).(free := Allocator.Refilled(DiskView().pages))
    {
      hide Collected, Allocator.EmptyNumbers, Allocator.Refilled, Database.Valid, Database.DiskView;
      Shape();
      ghost var pages := DiskView().pages;
      var total := GetTotalPages();
      var freeCount: uint16, listLen: uint16 := 0, 0;
      ClearSlots();
      NoneCollected(pages, freePages[..]);
      for i := 2 to total
        invariant Valid() && DiskView().pages == pages
        invariant Collected(Allocator.EmptyNumbers(pages, i - 2), freeCount, listLen, freePages[..])
      {
        var ok, page := ReadPageFromDisk(i);
        NextEmpty(pages, i - 2);
        if page.status == PS_EMPTY {
          freeCount, listLen := NoteFree(Allocator.EmptyNumbers(pages, i - 2), freeCount, listLen, i);
        }
      }
      AllCollected(pages, freeCount, listLen, freePages[..]);
      freePageCount := freeCount;
      freePageListLen := listLen;
    }

    /** The first listed run of `n` pages. */
    method FindListedRun(n: uint16) returns (first: Option<int32>)
      requires freePages.Length == DB_MAX_FREE_PAGES && freePageListLen <= DB_MAX_FREE_PAGES && n >= 1
      ensures first == Allocator.FindRun(Allocator.Listed(MemoryView().free), n, 0)
    {
      hide Allocator.RunListed;
      ghost var list := Allocator.Listed(MemoryView().free);
      for i := 0 to freePageListLen
        invariant Allocator.FindRun(list, n, 0) == Allocator.FindRun(list, n, i)
      {
        assert list[i] == freePages[i];
        var found := RunIsListed(freePages[i], n);
        if found {
          return Some(freePages[i]);
        }
      }
      return None;
    }

    /** Takes a run off the list: the last entry for one page, otherwise the first listed run. */
    method TakeListed(n: uint16) returns (first: Option<int32>)
      requires Valid() && |dataFile| >= 2 && n >= 1 && freePageListLen <= DB_MAX_FREE_PAGES
      modifies `freePageCount, `freePageListLen, freePages, `dataFile, `trace
      ensures Valid() && |dataFile| == old(|dataFile|)
      ensures var r := Allocator.Take(old(MemoryView()).free, n);
        match r
        case None => first.None? && MemoryView() == old(MemoryView()) && Wrote(old(DiskView()), old(trace), [])
        case Some((p, f)) =>
          && first == Some(p) && MemoryView() == old(MemoryView()).(free := f)
          && Wrote(old(DiskView()), old(trace), [PutFree(f)])
    {
      hide IndexPart, Crc.CrcTable.Valid, BTree.BTree.Valid, BTree.DecodeFile, DbCodec.DecodeHeader,
        DbCodec.DecodeFreeList, DecodePages, DecodeEntries, Allocator.RemoveRun, Allocator.FindRun, Allocator.Listed,
        ApplyAll, Database.Valid, Database.DiskView;
      Shape();
      if freePageCount >= n && freePageListLen > 0 {
        if n == 1 {
          freePageListLen := freePageListLen - 1;
          first := Some(freePages[freePageListLen]);
          freePageCount := freePageCount - 1;
          StoreFreeList();
          return;
        }
        first := FindListedRun(n);
        if first.Some? {
          RemoveRunListed(first.value, n);
          freePageCount := freePageCount - n;
          StoreFreeList();
          return;
        }
      }
      first := None;
      NothingWritten(DiskView(), trace);
    }

    method StoreFreeList()
      requires Valid() && |dataFile| >= 2
      modifies `dataFile, `trace
      ensures Valid() && |dataFile| == old(|dataFile|)
      ensures Wrote(old(DiskView()), old(trace), [PutFree(MemoryView().free)])
    {
      hide Database.Valid, Database.DiskView, Apply;
      Shape();
      ApplyOne(DiskView(), PutFree(MemoryView().free));
      WriteFreeListToDisk();
    }

    /** Makes the file longer by `n` empty pages. */
    method AppendPages(n: uint16) returns (total: int32)
      requires Valid() && |dataFile| >= 2 && |dataFile| - 2 + n <= Allocator.MAX_PAGES
      modifies `dataFile, `trace
      ensures Valid() && total == old(|dataFile|) && |dataFile| == old(|dataFile|) + n
      ensures Wrote(old(DiskView()), old(trace), Allocator.Append(old(DiskView()).pages, n))
    {
      hide IndexPart, Crc.CrcTable.Valid, BTree.BTree.Valid, BTree.DecodeFile, DbCodec.DecodeHeader,
        DbCodec.DecodeFreeList, DecodePages, DecodeEntries, Apply, PageWrites;
      total := GetTotalPages();
      ghost var d, t := DiskView(), trace;
      ghost var ws := Allocator.Append(d.pages, n);
      for i := 0 to n
        invariant Valid() && |dataFile| == total + i && Wrote(d, t, ws[..i])
      {
        WritePageToDisk(total + i, EMPTY_PAGE);
        OneMoreWrite(d, t, ws, i);
      }
      assert ws[..n] == ws;
    }

    /** A run of `n` pages: from the list, else from the list refilled when it was empty, else from the end of the file.
        The refilled list is not empty, so it is refilled at most once. */
    method AllocatePages(n: uint16) returns (first: int32)
      requires Valid() && isOpen && n >= 1 && freePageListLen <= DB_MAX_FREE_PAGES
        && |dataFile| - 2 + n <= Allocator.MAX_PAGES
      modifies `freePageCount, `freePageListLen, freePages, `dataFile, `trace
      ensures Valid()
      ensures var a := Allocator.Allocate(old(MemoryView()).free, old(DiskView()).pages, n);
        && first == a.first && MemoryView() == old(MemoryView()).(free := a.free)
        && Wrote(old(DiskView()), old(trace), a.writes)
      decreases if freePageListLen == 0 then 1 else 0
    {
      hide Database.Valid, Database.DiskView, Apply, ApplyAll, PageWrites, Allocator.Take, Allocator.Refilled,
        Allocator.Append, Allocator.Allocate;
      Shape();
      ghost var d, t, f := DiskView(), trace, MemoryView().free;
      AllocateCases(f, d.pages, n);
      var taken := TakeListed(n);
      if taken.Some? {
        return taken.value;
      }
      assert trace == t && DiskView() == d by {
        NothingWritten(d, t);
      }
      if freePageCount >= n && freePageListLen == 0 {
        var updated := UpdateFreePages();
        RefillEffect(d, f);
        if freePageListLen > 0 {
          ghost var d1 := DiskView();
          first := AllocatePages(n);
          ghost var a := Allocator.Allocate(Allocator.Refilled(d.pages), d.pages, n);
          ApplyConcat(d, [PutFree(Allocator.Refilled(d.pages))], a.writes);
          return;
        }
        ghost var d1 := DiskView();
        first := AppendPages(n);
        ApplyConcat(d, [PutFree(Allocator.Refilled(d.pages))], Allocator.Append(d.pages, n));
        return;
      }
      first := AppendPages(n);
    }

    /** Releases a run: the count grows by all of it, the list by its first page when there is room. */
    method ReleasePages(first: int32, n: uint16)
      requires Valid() && |dataFile| >= 2 && freePageListLen <= DB_MAX_FREE_PAGES
      modifies `freePageCount, `freePageListLen, freePages, `dataFile, `trace
      ensures Valid() && |dataFile| == old(|dataFile|)
      ensures n == 0 ==> MemoryView() == old(MemoryView()) && trace == old(trace) && DiskView() == old(DiskView())
      ensures n > 0 ==>
        && MemoryView() == old(MemoryView()).(free := Allocator.Release(old(MemoryView()).free, first, n))
        && trace == old(trace) + [PutFree(MemoryView().free)]
        && DiskView() == Apply(old(DiskView()), PutFree(MemoryView().free))
    {
      hide IndexPart, Crc.CrcTable.Valid, BTree.BTree.Valid, BTree.DecodeFile, DbCodec.DecodeHeader,
        DbCodec.DecodeFreeList, DecodePages, DecodeEntries;
      if n == 0 {
        return;
      }
      freePageCount := (freePageCount as int + n) % 0x1_0000;
      if freePageListLen < DB_MAX_FREE_PAGES {
        freePages[freePageListLen] := first;
        freePageListLen := freePageListLen + 1;
      }
      WriteFreeListToDisk();
    }

    // ---- The primary index ----

    /** Takes into the trace the changes that the index object has logged beyond the first `logged`. */
    ghost method RecordIndexWrites(logged: nat)
      requires logged <= |primaryIndex.log| && IndexPart(trace) == primaryIndex.log[..logged]
      modifies `trace
      ensures trace == old(trace) + IndexPuts(primaryIndex.log[logged..]) && IndexPart(trace) == primaryIndex.log
    {
      IndexPartPuts(trace, primaryIndex.log[logged..]);
      assert primaryIndex.log == primaryIndex.log[..logged] + primaryIndex.log[logged..];
      trace := trace + IndexPuts(primaryIndex.log[logged..]);
    }

    /** Adds a page to an id in the primary index. */
    method InsertIntoIndex(id: int32, page: int32) returns (ok: bool)
      requires Valid() && |dataFile| >= 2 && primaryIndex.isOpen
      modifies primaryIndex`file, primaryIndex`log, `trace
      ensures Valid()
      ensures var f := old(DiskView()).index;
        ok <==> f.Ready? && Leaf.Inserted(f.leaf.entries, id, page).Some?
      ensures ok ==>
        Wrote(old(DiskView()), old(trace),
          IndexWrites(old(DiskView()), Leaf.Inserted(old(DiskView()).index.leaf.entries, id, page).value))
      ensures !ok ==> trace == old(trace) && DiskView() == old(DiskView())
    {
      hide IndexPart, Crc.CrcTable.Valid, BTree.BTree.Valid, BTree.DecodeFile, DbCodec.DecodeHeader,
        DbCodec.DecodeFreeList, DecodePages, DecodeEntries, Leaf.Inserted, BTree.DecodeHeader;
      ghost var d, logged := DiskView(), |primaryIndex.log|;
      ok := primaryIndex.Insert(id, page);
      RecordIndexWrites(logged);
      if ok {
        InsertedWrites(d, Leaf.Inserted(d.index.leaf.entries, id, page).value);
      }
    }

    method DeleteFromIndex(id: int32) returns (ok: bool)
      requires Valid() && |dataFile| >= 2 && primaryIndex.isOpen
      modifies primaryIndex`file, primaryIndex`log, `trace
      ensures Valid()
      ensures var f := old(DiskView()).index;
        ok <==> f.Ready? && Leaf.Deleted(f.leaf.entries, id).Some?
      ensures ok ==>
        var es := Leaf.Deleted(old(DiskView()).index.leaf.entries, id).value;
        |es| <= 60 && Wrote(old(DiskView()), old(trace), IndexWrites(old(DiskView()), es))
      ensures !ok ==> trace == old(trace) && DiskView() == old(DiskView())
    {
      hide IndexPart, Crc.CrcTable.Valid, BTree.BTree.Valid, BTree.DecodeFile, DbCodec.DecodeHeader,
        DbCodec.DecodeFreeList, DecodePages, DecodeEntries, BTree.DecodeHeader;
      ghost var d, logged := DiskView(), |primaryIndex.log|;
      ok := primaryIndex.Delete(id);
      RecordIndexWrites(logged);
      if ok {
        RemovedWrites(d, id);
      }
    }

    /** The first page the index gives for an id. */
    method FirstPage(id: int32) returns (page: Option<int32>)
      requires Valid() && |dataFile| >= 2 && primaryIndex.isOpen
      ensures page == BTree.FirstValue(DiskView().index, id)
    {
      hide IndexPart, Crc.CrcTable.Valid, BTree.DecodeFile, DbCodec.DecodeHeader, DbCodec.DecodeFreeList,
        DecodePages, DecodeEntries, BTree.LookIn, BTree.DecodeHeader;
      var pages := new int32[1];
      var found, count := primaryIndex.Find(id, pages, 1);
      if !found || count == 0 {
        return None;
      }
      assert pages[..1][0] == BTree.LookIn(DiskView().index, id).value[..1][0];
      return Some(pages[0]);
    }

    // ---- Records ----

    /** The piece of a record that goes into its i-th page, filled up with zeros. */
    static method CopyPiece(data: bytes, offset: uint16, ghost i: nat) returns (piece: bytes)
      requires |data| < 0x1_0000 && offset == i * DB_PAGE_DATA_SIZE && offset <= |data|
      ensures piece == Chunk(data, i)
    {
      var buf := new byte[DB_PAGE_DATA_SIZE](_ => 0);
      var copyLen: uint16 := DB_PAGE_DATA_SIZE;
      if (offset as int) + copyLen > |data| {
        copyLen := |data| - offset;
      }
      if copyLen > 0 {
        CopyInto(buf, 0, data[offset..(offset as int) + copyLen]);
      }
      piece := buf[..];
    }

    /** Journals the pages of a record that is added or updated. */
    method JournalRecord(op: byte, first: int32, id: int32, data: bytes)
      requires Valid() && |dataFile| >= 2 && journalOpen && |data| == header.recordSize
      requires first + CalculatePagesNeeded(header.recordSize) <= 0x8000_0000
      modifies `journalFile, `trace, crc, crc.table
      ensures Valid() && MemoryView() == old(MemoryView())
      ensures Wrote(old(DiskView()), old(trace),
        JournalWrites(WriteEntries(op, first, id, data, CalculatePagesNeeded(header.recordSize))))
    {
      hide IndexPart, Crc.CrcTable.Valid, BTree.BTree.Valid, BTree.DecodeFile, DbCodec.DecodeHeader,
        DbCodec.DecodeFreeList, DecodePages, DecodeEntries, Apply, JournalWrites, WriteEntries, Chunk,
        DbCodec.Sealed;
      var n := CalculatePagesNeeded(header.recordSize);
      ghost var d, t, ws := DiskView(), trace, JournalWrites(WriteEntries(op, first, id, data, n));
      var offset: uint16 := 0;
      for i := 0 to n
        invariant Valid() && |dataFile| >= 2 && journalOpen && MemoryView() == old(MemoryView())
        invariant offset == i * DB_PAGE_DATA_SIZE % 0x1_0000
        invariant Wrote(d, t, ws[..i])
      {
        OffsetInRange(header.recordSize, i);
        var piece := CopyPiece(data, offset, i);
        var entry := JournalEntry(op, first + i, id, [StatusOf(i)] + piece, 0);
        var ok := WriteJournalEntry(entry);
        OneMoreWrite(d, t, ws, i);
        offset := ((offset as int) + DB_PAGE_DATA_SIZE) % 0x1_0000;
      }
      assert ws[..n] == ws;
    }

    /** Writes a record over its pages. */
    method WriteRecord(first: int32, id: int32, data: bytes)
      requires Valid() && |dataFile| >= 2 && |data| == header.recordSize
      requires 2 <= first && first + CalculatePagesNeeded(header.recordSize) <= |dataFile|
      modifies `dataFile, `trace
      ensures Valid() && |dataFile| == old(|dataFile|)
      ensures Wrote(old(DiskView()), old(trace),
        PageWrites(first, Images(id, data, CalculatePagesNeeded(header.recordSize))))
    {
      hide Database.Valid, Database.DiskView, Apply, ApplyAll, PageWrites, Images, Chunk, CalculatePagesNeeded;
      Shape();
      var n := CalculatePagesNeeded(header.recordSize);
      ghost var d, t, ws := DiskView(), trace, PageWrites(first, Images(id, data, n));
      NothingWritten(d, t);
      assert ws[..0] == [];
      var offset: uint16 := 0;
      for i := 0 to n
        invariant Valid() && |dataFile| == old(|dataFile|)
        invariant offset == i * DB_PAGE_DATA_SIZE % 0x1_0000
        invariant Wrote(d, t, ws[..i])
      {
        OffsetInRange(header.recordSize, i);
        var piece := CopyPiece(data, offset, i);
        WritePageToDisk(first + i, Page(id, StatusOf(i), 0, piece));
        OneMoreWrite(d, t, ws, i);
        offset := ((offset as int) + DB_PAGE_DATA_SIZE) % 0x1_0000;
      }
      assert ws[..n] == ws;
    }

    /** Journals a record's pages inside a transaction, and then writes them. */
    method StoreRecord(op: byte, first: int32, id: int32, data: bytes)
      requires Valid() && |dataFile| >= 2 && |data| == header.recordSize
      requires 2 <= first && first + CalculatePagesNeeded(header.recordSize) <= |dataFile|
      modifies `dataFile, `journalFile, `trace, crc, crc.table
      ensures Valid() && |dataFile| == old(|dataFile|) && MemoryView() == old(MemoryView())
      ensures Wrote(old(DiskView()), old(trace),
                    RecordWrites(old(MemoryView()), op, first, id, data, CalculatePagesNeeded(header.recordSize)))
    {
      hide IndexPart, Crc.CrcTable.Valid, BTree.BTree.Valid, BTree.DecodeFile, DbCodec.DecodeHeader,
        DbCodec.DecodeFreeList, DecodePages, DecodeEntries, ApplyAll, PageWrites, JournalWrites, WriteEntries,
        Images;
      ghost var d, t, n := DiskView(), trace, CalculatePagesNeeded(header.recordSize);
      ghost var es := WriteEntries(op, first, id, data, n);
      Then(d, t, JournalWrites(es), PageWrites(first, Images(id, data, n)));
      NothingWritten(d, t);
      Then(d, t, [], PageWrites(first, Images(id, data, n)));
      if header.journalPending && journalOpen {
        JournalRecord(op, first, id, data);
      }
      WriteRecord(first, id, data);
    }

    /** Journals that a record's pages become empty. */
    method JournalErasure(first: int32, id: int32)
      requires Valid() && |dataFile| >= 2 && journalOpen
      requires first + CalculatePagesNeeded(header.recordSize) <= 0x8000_0000
      modifies `journalFile, `trace, crc, crc.table
      ensures Valid() && MemoryView() == old(MemoryView())
      ensures Wrote(old(DiskView()), old(trace),
        JournalWrites(EraseEntries(first, id, CalculatePagesNeeded(header.recordSize))))
    {
      hide IndexPart, Crc.CrcTable.Valid, BTree.BTree.Valid, BTree.DecodeFile, DbCodec.DecodeHeader,
        DbCodec.DecodeFreeList, DecodePages, DecodeEntries, Apply, JournalWrites, EraseEntries, DbCodec.Sealed;
      var n := CalculatePagesNeeded(header.recordSize);
      ghost var d, t, ws := DiskView(), trace, JournalWrites(EraseEntries(first, id, n));
      for i := 0 to n
        invariant Valid() && |dataFile| >= 2 && journalOpen && MemoryView() == old(MemoryView())
        invariant Wrote(d, t, ws[..i])
      {
        var ok := WriteJournalEntry(JournalEntry(JO_DELETE, first + i, id, Zeros(507), 0));
        OneMoreWrite(d, t, ws, i);
      }
      assert ws[..n] == ws;
    }

    /** Marks a record's pages as empty. */
    method EraseRecord(first: int32)
      requires Valid() && |dataFile| >= 2
      requires 2 <= first && first + CalculatePagesNeeded(header.recordSize) <= |dataFile|
      modifies `dataFile, `trace
      ensures Valid() && |dataFile| == old(|dataFile|)
      ensures Wrote(old(DiskView()), old(trace), PageWrites(first, Empties(CalculatePagesNeeded(header.recordSize))))
    {
      hide IndexPart, Crc.CrcTable.Valid, BTree.BTree.Valid, BTree.DecodeFile, DbCodec.DecodeHeader,
        DbCodec.DecodeFreeList, DecodePages, DecodeEntries, Apply, PageWrites;
      var n := CalculatePagesNeeded(header.recordSize);
      ghost var d, t, ws := DiskView(), trace, PageWrites(first, Empties(n));
      for i := 0 to n
        invariant Valid() && |dataFile| == old(|dataFile|)
        invariant Wrote(d, t, ws[..i])
      {
        WritePageToDisk(first + i, EMPTY_PAGE);
        OneMoreWrite(d, t, ws, i);
      }
      assert ws[..n] == ws;
    }

    /** Allocates the pages of a new record and writes it there. */
    method PlaceRecord(id: int32, data: bytes) returns (first: int32)
      requires Valid() && isOpen && |data| == header.recordSize
      requires freePageListLen <= DB_MAX_FREE_PAGES
        && |dataFile| - 2 + CalculatePagesNeeded(header.recordSize) <= Allocator.MAX_PAGES
      requires var n := CalculatePagesNeeded(header.recordSize);
        var a := Allocator.Allocate(MemoryView().free, DiskView().pages, n);
        && 2 <= a.first && a.first - 2 + n <= |DiskView().pages| + a.grown
        && |ApplyAll(DiskView(), a.writes).pages| == |DiskView().pages| + a.grown
      modifies `freePageCount, `freePageListLen, freePages, `dataFile, `journalFile, `trace, crc, crc.table
      ensures Valid()
      ensures var n, m := CalculatePagesNeeded(header.recordSize), old(MemoryView());
        var a := Allocator.Allocate(m.free, old(DiskView()).pages, n);
        && first == a.first && MemoryView() == m.(free := a.free)
        && first + n <= 0x8000_0000
        && Wrote(old(DiskView()), old(trace), a.writes + RecordWrites(MemoryView(), JO_ADD, first, id, data, n))
    {
      hide IndexPart, Crc.CrcTable.Valid, BTree.BTree.Valid, BTree.DecodeFile, DbCodec.DecodeHeader,
        DbCodec.DecodeFreeList, DecodePages, DecodeEntries, ApplyAll, RecordWrites, Allocator.Allocate,
        CalculatePagesNeeded;
      ghost var d, t, f := DiskView(), trace, MemoryView().free;
      var n := CalculatePagesNeeded(header.recordSize);
      first := AllocatePages(n);
      StoreRecord(JO_ADD, first, id, data);
      Then(d, t, Allocator.Allocate(f, d.pages, n).writes, RecordWrites(MemoryView(), JO_ADD, first, id, data, n));
    }

    /** The steps of AddRecord. */
    method InsertRecord(data: bytes) returns (ok: bool, id: int32)
      requires Valid() && isOpen && Operable(View()) && Room(View()) && |data| == header.recordSize
      modifies this, freePages, primaryIndex, crc, crc.table
      ensures Valid() && isOpen
      ensures var o := Add(old(View()), data);
        && ok == o.ok && MemoryView() == o.mem && Wrote(old(DiskView()), old(trace), o.writes)
        && (ok ==> id == old(header.nextRecordId))
    {
      hide Database.Valid, Database.DiskView, ApplyAll, RecordWrites, IndexWrites, Allocator.Allocate, Leaf.Inserted,
        Operable, Room, Add, PagesPer, CalculatePagesNeeded;
      Shape();
      ok, id := false, 0;
      ghost var s, d, t := View(), DiskView(), trace;
      AddPlan(s, data);
      var newId := header.nextRecordId;
      header := header.(nextRecordId := newId + 1);
      var first := PlaceRecord(newId, data);
      ghost var a, record := Allocator.Allocate(s.mem.free, s.disk.pages, PagesPer(s)).writes,
        RecordWrites(MemoryView(), JO_ADD, first, newId, data, PagesPer(s));
      ghost var ws, d1 := a + record, DiskView();
      Then(d, t, a, record);
      var inserted := InsertIntoIndex(newId, first);
      if !inserted {
        return;
      }
      ghost var es := Leaf.Inserted(s.disk.index.leaf.entries, newId, first).value;
      SameIndexWrites(s.disk, d1, es);
      Then(d, t, ws, IndexWrites(s.disk, es));
      header := header.(recordCount := header.recordCount + 1);
      WriteHeaderToDisk();
      ThenOne(d, t, ws + IndexWrites(s.disk, es), PutHeader(header));
      return true, newId;
    }

    /** Stores a new record, or fails when the index has no room for it; its pages are then written all the same. */
    method AddRecord(data: bytes) returns (ok: bool, id: int32)
      requires Valid() && (isOpen ==> Operable(View()) && Room(View())) && |data| == header.recordSize
      modifies this, freePages, primaryIndex, crc, crc.table
      ensures Valid() && isOpen == old(isOpen)
      ensures !isOpen ==> !ok && MemoryView() == old(MemoryView()) && trace == old(trace)
      ensures isOpen ==>
        var o := Add(old(View()), data);
        && ok == o.ok && MemoryView() == o.mem && Wrote(old(DiskView()), old(trace), o.writes)
        && (ok ==> id == old(header.nextRecordId))
      ensures isOpen && Core(old(View())) ==>
        && Core(View()) && (ok <==> |Data(old(View()))| < MAX_RECORDS)
        && (ok ==> id !in Data(old(View())) && Data(View()) == Data(old(View()))[id := data])
        && (!ok ==> Data(View()) == Data(old(View())))
    {
      hide IndexPart, Crc.CrcTable.Valid, BTree.BTree.Valid, BTree.DecodeFile, DbCodec.DecodeHeader,
        DbCodec.DecodeFreeList, DecodePages, DecodeEntries, ApplyAll, Core, Coherent, Operable, Room, Add, Data;
      ok, id := false, 0;
      if isOpen {
        ghost var s := View();
        ok, id := InsertRecord(data);
        if Core(s) {
          AddKeepsCore(s, data);
          EntriesAreData(s);
        }
      }
    }

    /** The page with the given number, if it is the i-th of the record's. */
    method CheckPage(num: int, id: int32, i: nat) returns (ok: bool, page: DBPage)
      requires Valid()
      ensures ok <==>
        0 <= num < |dataFile| && AllPages(dataFile)[num].id == id && AllPages(dataFile)[num].status == StatusOf(i)
      ensures ok ==> page == AllPages(dataFile)[num]
    {
      hide IndexPart, Crc.CrcTable.Valid, BTree.BTree.Valid, BTree.DecodeFile, DbCodec.DecodeHeader,
        DbCodec.DecodeFreeList, DbCodec.DecodePage, DecodeEntries;
      ok, page := ReadPageFromDisk(num);
      if !ok {
        return;
      }
      if i == 0 {
        if page.status != PS_ACTIVE || page.id != id {
          ok := false;
        }
      } else {
        if page.status != PS_CONTINUATION || page.id != id {
          ok := false;
        }
      }
    }

    /** Copies the part of a page that belongs to a record of the given size. */
    static method CopyOut(data: array<byte>, page: DBPage, offset: uint16, size: uint16)
      requires data.Length >= size && offset <= size
      modifies data
      ensures var end := if (offset as int) + DB_PAGE_DATA_SIZE <= size then (offset as int) + DB_PAGE_DATA_SIZE
        else size as int;
        data[..end] == old(data[..offset]) + page.data[..end - offset]
      ensures data[size..] == old(data[size..])
    {
      var copyLen: uint16 := DB_PAGE_DATA_SIZE;
      if (offset as int) + copyLen > size {
        copyLen := size - offset;
      }
      if copyLen > 0 {
        CopyInto(data, offset, page.data[..copyLen]);
      }
    }

    /** Checks and copies out the i-th page of a record of `n` pages. */
    method AssembleNext(pageNum: nat, id: int32, i: nat, ghost n: nat, offset: uint16, data: array<byte>)
      returns (ok: bool)
      requires Valid() && Blocks(dataFile, DB_PAGE_SIZE) && data.Length >= header.recordSize
      requires i < n && offset == i * DB_PAGE_DATA_SIZE && offset <= header.recordSize
      requires RunSoFar(AllPages(dataFile), pageNum, id, i)
      requires data[..Upto(i, header.recordSize)]
        == PageBytes(AllPages(dataFile), pageNum, i)[..Upto(i, header.recordSize)]
      modifies data
      ensures Valid() && data[header.recordSize..] == old(data[header.recordSize..])
      ensures !ok ==> !IsRun(AllPages(dataFile), pageNum, id, n)
      ensures ok ==> RunSoFar(AllPages(dataFile), pageNum, id, i + 1)
      ensures ok ==>
        data[..Upto(i + 1, header.recordSize)]
          == PageBytes(AllPages(dataFile), pageNum, i + 1)[..Upto(i + 1, header.recordSize)]
    {
      hide PageBytes, Database.Valid, AllPages, Blocks, RunSoFar, IsRun;
      ghost var pages := AllPages(dataFile);
      ok := false;
      var checked, page := CheckPage(pageNum + i, id, i);
      OneMoreSoFar(pages, pageNum, id, i, n);
      if checked {
        CopyOut(data, page, offset, header.recordSize);
        MorePageBytes(pages, pageNum, i, header.recordSize);
        ok := true;
      }
    }

    /** Checks and assembles the pages of a record. */
    method AssembleRecord(pageNum: nat, id: int32, data: array<byte>) returns (ok: bool)
      requires Valid() && Blocks(dataFile, DB_PAGE_SIZE) && data.Length >= header.recordSize
      modifies data
      ensures Valid()
      ensures ok <==> IsRun(AllPages(dataFile), pageNum, id, CalculatePagesNeeded(header.recordSize))
      ensures ok ==> data[..header.recordSize] == Content(AllPages(dataFile), pageNum, header.recordSize)
      ensures data[header.recordSize..] == old(data[header.recordSize..])
    {
      hide Content, PageBytes, Database.Valid, CalculatePagesNeeded, AllPages, Blocks, Upto, IsRun;
      var n, size := CalculatePagesNeeded(header.recordSize), header.recordSize;
      ghost var pages := AllPages(dataFile);
      var offset: uint16 := 0;
      NoneSoFar(pages, pageNum, id);
      NoPageBytes(pages, pageNum);
      assert data[..Upto(0, size)] == [];
      for i := 0 to n
        invariant Valid() && offset == i * DB_PAGE_DATA_SIZE % 0x1_0000
        invariant RunSoFar(pages, pageNum, id, i)
        invariant data[..Upto(i, size)] == PageBytes(pages, pageNum, i)[..Upto(i, size)]
        invariant data[size..] == old(data[size..])
      {
        OffsetInRange(size, i);
        var fits := AssembleNext(pageNum, id, i, n, offset, data);
        if !fits {
          return false;
        }
        offset := ((offset as int) + DB_PAGE_DATA_SIZE) % 0x1_0000;
      }
      WholeSize(size);
      Assembled(pages, pageNum, id, size, data[..size]);
      return true;
    }

    lemma WholeBlocks()
      requires Valid()
      ensures Blocks(dataFile, DB_PAGE_SIZE) && |AllPages(dataFile)| == |dataFile|
      ensures |dataFile| >= 2 ==> DiskView().pages == DecodePages(dataFile)
    {
    }

    /** When the index names data pages only, reading the file is reading the data pages. */
    lemma ReadsRecords(id: int32)
      requires Valid() && |dataFile| >= 2
      ensures Blocks(dataFile, DB_PAGE_SIZE)
      ensures Addressed(DiskView().index) ==>
        FindInFile(dataFile, DiskView().index, header.recordSize, id) == FindRecord(View(), id)
    {
      WholeBlocks();
      if Addressed(DiskView().index) {
        FindsInData(dataFile, View(), id);
      }
    }

    /** Finds a record by its index entry; fails without one or when a page is not the record's. A page number before
        the start of the file cannot be read; when the index names data pages only, the records answer. */
    method FindRecordByID(id: int32, data: array<byte>) returns (ok: bool)
      requires Valid() && data.Length >= header.recordSize
      modifies data
      ensures Valid() && Blocks(dataFile, DB_PAGE_SIZE)
      ensures isOpen ==>
        var r := FindInFile(dataFile, DiskView().index, header.recordSize, id);
        (ok <==> r.Some?) && (ok ==> data[..header.recordSize] == r.value)
      ensures isOpen && Addressed(DiskView().index) ==>
        var r := FindRecord(old(View()), id); (ok <==> r.Some?) && (ok ==> data[..header.recordSize] == r.value)
      ensures !isOpen ==> !ok
      ensures data[header.recordSize..] == old(data[header.recordSize..])
    {
      hide Database.Valid, Database.DiskView, Blocks, FindInFile, FindRecord, Addressed;
      if isOpen {
        Shape();
        ReadsRecords(id);
      }
      ok := ReadByIndex(id, data);
    }

    /** The steps of FindRecordByID. */
    method ReadByIndex(id: int32, data: array<byte>) returns (ok: bool)
      requires Valid() && data.Length >= header.recordSize
      modifies data
      ensures Valid() && Blocks(dataFile, DB_PAGE_SIZE)
      ensures isOpen ==>
        var r := FindInFile(dataFile, DiskView().index, header.recordSize, id);
        (ok <==> r.Some?) && (ok ==> data[..header.recordSize] == r.value)
      ensures !isOpen ==> !ok
      ensures data[header.recordSize..] == old(data[header.recordSize..])
    {
      WholeBlocks();
      hide *;
      ok := false;
      if isOpen {
        Shape();
        ghost var index, size := DiskView().index, header.recordSize;
        FoundInFile(dataFile, index, size, id);
        var first := FirstPage(id);
        if first.Some? && first.value >= 0 {
          ok := AssembleFrom(first.value, id, data);
          assert DiskView().index == index;
        }
      }
    }

    /** Assembles a record and says so of its blocks. */
    method AssembleFrom(pageNum: nat, id: int32, data: array<byte>) returns (ok: bool)
      requires Valid() && Blocks(dataFile, DB_PAGE_SIZE) && data.Length >= header.recordSize && isOpen
      modifies data
      ensures Valid() && DiskView() == old(DiskView())
      ensures ok <==> IsRun(AllPages(dataFile), pageNum, id, CalculatePagesNeeded(header.recordSize))
      ensures ok ==> data[..header.recordSize] == Content(AllPages(dataFile), pageNum, header.recordSize)
      ensures data[header.recordSize..] == old(data[header.recordSize..])
    {
      hide *;
      ok := AssembleRecord(pageNum, id, data);
    }

    /** The steps of UpdateRecord. */
    method ReplaceRecord(id: int32, data: bytes) returns (ok: bool)
      requires Valid() && isOpen && Operable(View()) && |data| == header.recordSize
      modifies `dataFile, `journalFile, `trace, crc, crc.table
      ensures Valid() && MemoryView() == old(MemoryView())
      ensures var o := Update(old(View()), id, data); ok == o.ok && Wrote(old(DiskView()), old(trace), o.writes)
    {
      hide IndexPart, Crc.CrcTable.Valid, BTree.BTree.Valid, BTree.DecodeFile, DbCodec.DecodeHeader,
        DbCodec.DecodeFreeList, DecodePages, DecodeEntries, ApplyAll, RecordWrites, Operable, Update, BTree.LookIn,
        BTree.FirstValue, PagesPer, CalculatePagesNeeded;
      ghost var s := View();
      ChangePlan(s, id);
      UpdatePlan(s, id, data);
      NothingWritten(DiskView(), trace);
      var first := FirstPage(id);
      if first.None? {
        return false;
      }
      StoreRecord(JO_UPDATE, first.value, id, data);
      return true;
    }

    /** Replaces an existing record in its pages. */
    method UpdateRecord(id: int32, data: bytes) returns (ok: bool)
      requires Valid() && (isOpen ==> Operable(View())) && |data| == header.recordSize
      modifies `dataFile, `journalFile, `trace, crc, crc.table
      ensures Valid() && MemoryView() == old(MemoryView())
      ensures !isOpen ==> !ok && trace == old(trace)
      ensures isOpen ==>
        var o := Update(old(View()), id, data); ok == o.ok && Wrote(old(DiskView()), old(trace), o.writes)
      ensures isOpen && Coherent(old(View())) ==>
        && Coherent(View()) && (ok <==> id in Data(old(View())))
        && Data(View()) == if ok then Data(old(View()))[id := data] else Data(old(View()))
    {
      hide IndexPart, Crc.CrcTable.Valid, BTree.BTree.Valid, BTree.DecodeFile, DbCodec.DecodeHeader,
        DbCodec.DecodeFreeList, DecodePages, DecodeEntries, ApplyAll, Coherent, Operable, Update, Core, Data;
      ok := false;
      if isOpen {
        ghost var s := View();
        ok := ReplaceRecord(id, data);
        if Coherent(s) {
          UpdateKeeps(s, id, data);
        }
      }
    }

    /** Empties the pages of a record that the index maps to `first`, removes it from the index and releases the
        pages. */
    method RemoveRecord(first: int32, id: int32)
      requires Valid() && isOpen && 2 <= first && first + CalculatePagesNeeded(header.recordSize) <= |dataFile|
      requires freePageListLen <= DB_MAX_FREE_PAGES && header.recordCount > 0
      requires Removable(MemoryView(), DiskView(), first, id)
      modifies this, freePages, primaryIndex, crc, crc.table
      ensures Valid() && isOpen
      ensures var o := Removal(old(MemoryView()), old(DiskView()), first, id);
        MemoryView() == o.mem && Wrote(old(DiskView()), old(trace), o.writes)
    {
      hide Database.Valid, Database.DiskView, ApplyAll, EraseWrites, IndexWrites, CalculatePagesNeeded, Leaf.Deleted,
        Allocator.Release;
      Shape();
      ghost var m, d, t := MemoryView(), DiskView(), trace;
      ghost var erased := EraseWrites(m, first, id, CalculatePagesNeeded(header.recordSize));
      ErasePages(first, id);
      ghost var d1 := DiskView();
      var removed := DeleteFromIndex(id);
      ghost var es := Leaf.Deleted(d.index.leaf.entries, id).value;
      SameIndexWrites(d, d1, es);
      Then(d, t, erased, IndexWrites(d, es));
      ReleasePages(first, CalculatePagesNeeded(header.recordSize));
      ThenOne(d, t, erased + IndexWrites(d, es), PutFree(MemoryView().free));
      header := header.(recordCount := header.recordCount - 1);
      WriteHeaderToDisk();
      ThenOne(d, t, erased + IndexWrites(d, es) + [PutFree(MemoryView().free)], PutHeader(header));
    }

    /** Deletes an existing record. */
    method DeleteRecord(id: int32) returns (ok: bool)
      requires Valid() && (isOpen ==> Operable(View()))
      modifies this, freePages, primaryIndex, crc, crc.table
      ensures Valid() && isOpen == old(isOpen)
      ensures !isOpen ==> !ok && MemoryView() == old(MemoryView()) && trace == old(trace)
      ensures isOpen ==>
        var o := Delete(old(View()), id);
        ok == o.ok && MemoryView() == o.mem && Wrote(old(DiskView()), old(trace), o.writes)
      ensures isOpen && Coherent(old(View())) ==>
        && Coherent(View()) && (ok <==> id in Data(old(View())))
        && Data(View()) == if ok then Data(old(View())) - {id} else Data(old(View()))
    {
      hide IndexPart, Crc.CrcTable.Valid, BTree.BTree.Valid, BTree.DecodeFile, DbCodec.DecodeHeader,
        DbCodec.DecodeFreeList, DecodePages, DecodeEntries, ApplyAll, EraseWrites, IndexWrites, Coherent, Operable,
        Delete, BTree.LookIn, BTree.FirstValue, PagesPer, CalculatePagesNeeded, Indexed, Leaf.Deleted,
        Allocator.Release, Core, Data;
      if !isOpen {
        return false;
      }
      ghost var s := View();
      if Coherent(s) {
        DeleteKeeps(s, id);
      }
      ChangePlan(s, id);
      DeletePlan(s, id);
      NothingWritten(DiskView(), trace);
      var first := FirstPage(id);
      if first.None? {
        return false;
      }
      RemoveRecord(first.value, id);
      return true;
    }

    /** Journals inside a transaction that a record's pages become empty, and then empties them. */
    method ErasePages(first: int32, id: int32)
      requires Valid() && |dataFile| >= 2
      requires 2 <= first && first + CalculatePagesNeeded(header.recordSize) <= |dataFile|
      modifies `dataFile, `journalFile, `trace, crc, crc.table
      ensures Valid() && |dataFile| == old(|dataFile|) && MemoryView() == old(MemoryView())
      ensures Wrote(old(DiskView()), old(trace),
        EraseWrites(old(MemoryView()), first, id, CalculatePagesNeeded(header.recordSize)))
    {
      hide IndexPart, Crc.CrcTable.Valid, BTree.BTree.Valid, BTree.DecodeFile, DbCodec.DecodeHeader,
        DbCodec.DecodeFreeList, DecodePages, DecodeEntries, ApplyAll, PageWrites, JournalWrites, EraseEntries,
        Empties;
      ghost var d, t, n := DiskView(), trace, CalculatePagesNeeded(header.recordSize);
      ghost var es := EraseEntries(first, id, n);
      Then(d, t, JournalWrites(es), PageWrites(first, Empties(n)));
      NothingWritten(d, t);
      Then(d, t, [], PageWrites(first, Empties(n)));
      if header.journalPending && journalOpen {
        JournalErasure(first, id);
      }
      EraseRecord(first);
    }

    // ---- Transactions ----

    /** Makes the journal file empty, creating it when there is none. */
    method ClearJournalFile()
      requires Valid() && |dataFile| >= 2
      modifies `journalFile, `trace
      ensures Valid() && journalFile.Some?
      ensures trace == old(trace) + [ClearJournal] && DiskView() == Apply(old(DiskView()), ClearJournal)
    {
      hide IndexPart, Crc.CrcTable.Valid, BTree.BTree.Valid, BTree.DecodeFile, DbCodec.DecodeHeader,
        DbCodec.DecodeFreeList, DecodePages, DecodeEntries;
      journalFile := Some([]);
      IndexPartOne(trace, ClearJournal);
      trace := trace + [ClearJournal];
      EmptyJournal();
    }

    /** Starts a journal and sets the pending flag. */
    method BeginTransaction() returns (ok: bool)
      requires Valid()
      modifies `journalFile, `journalOpen, `header, `dataFile, `trace
      ensures Valid() && ok == isOpen
      ensures !ok ==> MemoryView() == old(MemoryView()) && trace == old(trace)
      ensures ok ==> MemoryView() == Begin(old(MemoryView())).mem
                     && Wrote(old(DiskView()), old(trace), Begin(old(MemoryView())).writes)
    {
      hide IndexPart, Crc.CrcTable.Valid, BTree.BTree.Valid, BTree.DecodeFile, DbCodec.DecodeHeader,
        DbCodec.DecodeFreeList, DecodePages, DecodeEntries, Apply, ApplyAll;
      if !isOpen {
        return false;
      }
      ghost var d, t := DiskView(), trace;
      ClearJournalFile();
      journalOpen := true;
      header := header.(journalPending := true);
      ApplyOne(d, ClearJournal);
      WriteHeaderToDisk();
      ThenOne(d, t, [ClearJournal], PutHeader(header));
      return true;
    }

    /** Clears the pending flag and then the journal. */
    method EndTransaction()
      requires Valid() && isOpen
      modifies `journalFile, `journalOpen, `header, `dataFile, `trace
      ensures Valid() && MemoryView() == Commit(old(MemoryView())).mem
      ensures Wrote(old(DiskView()), old(trace), Commit(old(MemoryView())).writes)
    {
      hide IndexPart, Crc.CrcTable.Valid, BTree.BTree.Valid, BTree.DecodeFile, DbCodec.DecodeHeader,
        DbCodec.DecodeFreeList, DecodePages, DecodeEntries, Apply, ApplyAll;
      ghost var d, t := DiskView(), trace;
      header := header.(journalPending := false);
      WriteHeaderToDisk();
      ApplyOne(d, PutHeader(header));
      journalOpen := false;
      ClearJournalFile();
      ThenOne(d, t, [PutHeader(header)], ClearJournal);
    }

    method CommitTransaction() returns (ok: bool)
      requires Valid()
      modifies `journalFile, `journalOpen, `header, `dataFile, `trace
      ensures Valid() && ok == isOpen
      ensures !ok ==> MemoryView() == old(MemoryView()) && trace == old(trace)
      ensures ok ==> MemoryView() == Commit(old(MemoryView())).mem
                     && Wrote(old(DiskView()), old(trace), Commit(old(MemoryView())).writes)
    {
      if isOpen {
        EndTransaction();
      }
      return isOpen;
    }

    /** A rollback ends the transaction as a commit does: nothing is undone. */
    method RollbackTransaction() returns (ok: bool)
      requires Valid()
      modifies `journalFile, `journalOpen, `header, `dataFile, `trace
      ensures Valid() && ok == isOpen
      ensures !ok ==> MemoryView() == old(MemoryView()) && trace == old(trace)
      ensures ok ==> MemoryView() == Commit(old(MemoryView())).mem
                     && Wrote(old(DiskView()), old(trace), Commit(old(MemoryView())).writes)
    {
      if isOpen {
        EndTransaction();
      }
      return isOpen;
    }

    // ---- Maintenance ----

    /** Closes an index, creates its file anew and opens it again. */
    static method ReplaceIndexFile(tree: BTree.BTree)
      requires tree.Valid() && tree.isOpen
      modifies tree
      ensures tree.Valid() && tree.isOpen && tree.View() == BTree.Ready(BTree.EmptyLeaf())
      ensures tree.log == old(tree.log) + RecreateLog()
    {
      hide BTree.DecodeFile, BTree.DecodeHeader, BTree.EmptyLeaf, BTree.HeaderPage, Leaf.LeafPage;
      tree.CloseBTree();
      tree.CreateBTree();
      var reopened := tree.OpenBTree();
    }

    /** Creates the primary index anew. */
    method RecreateIndex()
      requires Valid() && isOpen
      modifies primaryIndex, `trace
      ensures Valid() && Wrote(old(DiskView()), old(trace), Recreate())
      ensures DiskView() == old(DiskView()).(index := BTree.Ready(BTree.EmptyLeaf()))
    {
      hide IndexPart, Crc.CrcTable.Valid, BTree.BTree.Valid, BTree.DecodeFile, DbCodec.DecodeHeader,
        DbCodec.DecodeFreeList, DecodePages, DecodeEntries, BTree.EmptyLeaf, ApplyAll, RecreateLog, Recreate;
      ghost var d, t, logged := DiskView(), trace, |primaryIndex.log|;
      RecreateEffect(d);
      ReplaceIndexFile(primaryIndex);
      RecordIndexWrites(logged);
      RecreatePuts();
      assert primaryIndex.log[logged..] == RecreateLog();
    }

    /** Enters the page with number `i`, when it is active, after the scan of those before it. */
    method ScanNext(i: int32, ghost d: Disk, ghost t: seq<Write>, ghost pages: Store)
      requires Valid() && isOpen && 2 <= i < |dataFile| && |pages| == |dataFile| - 2 && d.pages == pages
      requires DiskView() == d.(index := BTree.Ready(LeafOf(Scanned(pages, i - 2))))
      requires Wrote(d, t, ScanWrites(pages, i - 2))
      modifies primaryIndex`file, primaryIndex`log, `trace
      ensures Valid() && DiskView() == d.(index := BTree.Ready(LeafOf(Scanned(pages, i - 1))))
      ensures Wrote(d, t, ScanWrites(pages, i - 1))
    {
      hide Database.Valid, Database.DiskView, Scanned, ScanWrites, ApplyAll, LeafOf, Leaf.Inserted, IndexWrites;
      Shape();
      ScanStep(d, pages, i - 2);
      assert ScanWrites(pages, i - 2) + [] == ScanWrites(pages, i - 2);
      ghost var d2 := DiskView();
      var read, page := ReadPageFromDisk(i);
      if page.status == PS_ACTIVE {
        var inserted := InsertIntoIndex(page.id, i);
        if inserted {
          Then(d, t, ScanWrites(pages, i - 2), IndexWrites(d2, Leaf.Inserted(d2.index.leaf.entries, page.id, i).value));
        }
      }
    }

    /** Rebuilds the primary index from the active pages; insertions that fail are ignored. */
    method RebuildPrimaryIndex() returns (ok: bool)
      requires Valid()
      modifies primaryIndex, `trace
      ensures Valid() && ok == isOpen
      ensures !ok ==> trace == old(trace)
      ensures ok ==> Wrote(old(DiskView()), old(trace), RebuildWrites(old(DiskView()).pages))
    {
      hide Database.Valid, Database.DiskView, BTree.EmptyLeaf, Scanned, ScanWrites, ApplyAll, LeafOf, Recreate;
      if !isOpen {
        return false;
      }
      Shape();
      ghost var d, t, pages := DiskView(), trace, DiskView().pages;
      RecreateIndex();
      ghost var d1, t1 := DiskView(), trace;
      NothingWritten(d1, t1);
      ScanStart(pages);
      var total := GetTotalPages();
      for i := 2 to total
        invariant Valid() && isOpen && DiskView() == d1.(index := BTree.Ready(LeafOf(Scanned(pages, i - 2))))
        invariant Wrote(d1, t1, ScanWrites(pages, i - 2))
      {
        ScanNext(i, d1, t1, pages);
      }
      Then(d, t, Recreate(), ScanWrites(pages, |pages|));
      return true;
    }

    /** Whether the header, the index and the active pages agree. */
    method ValidateDatabase() returns (ok: bool)
      requires Valid()
      ensures ok <==> isOpen && Validates(View())
    {
      hide IndexPart, Crc.CrcTable.Valid, BTree.BTree.Valid, BTree.DecodeFile, DbCodec.DecodeHeader,
        DbCodec.DecodeFreeList, DecodePages, DecodeEntries, BTree.LookIn, Count;
      if !isOpen {
        return false;
      }
      if header.signature != DB_SIGNATURE || header.version != DB_VERSION {
        return false;
      }
      ghost var d := DiskView();
      var total := GetTotalPages();
      var activeCount: int := 0;
      NoneCounted(d.pages);
      for i := 2 to total
        invariant activeCount == Count(d.pages[..i - 2], PS_ACTIVE)
        invariant forall k :: 0 <= k < i - 2 ==> PageIndexed(d, k)
      {
        var read, page := ReadPageFromDisk(i);
        CountNext(d.pages, i - 2);
        if page.status == PS_ACTIVE {
          activeCount := activeCount + 1;
          var first := FirstPage(page.id);
          if first.None? || first.value != i {
            assert !PageIndexed(d, i - 2);
            return false;
          }
        }
      }
      assert d.pages[..|d.pages|] == d.pages;
      return activeCount == header.recordCount;
    }

    /** The j-th page to copy for the record whose first page is `page`; made up when the file ends before it. */
    method PageToCopy(i: int, j: nat, page: DBPage) returns (out: DBPage)
      requires Valid() && |dataFile| >= 2 && 2 <= i < |dataFile| && page == DiskView().pages[i - 2]
      ensures out == CopiedPage(DiskView().pages, i - 2, j)
    {
      hide IndexPart, Crc.CrcTable.Valid, BTree.BTree.Valid, BTree.DecodeFile, DbCodec.DecodeHeader,
        DbCodec.DecodeFreeList, DecodePages, DecodeEntries, DbCodec.DecodePage;
      if j == 0 {
        out := page;
      } else {
        var read;
        read, out := ReadPageFromDisk(i + j);
        if !read {
          out := Page(page.id, PS_CONTINUATION, 0, Zeros(506));
        }
      }
    }

    /** Appends a page to a temporary file. */
    static method AppendPage(file: seq<bytes>, page: DBPage) returns (r: seq<bytes>)
      requires Blocks(file, DB_PAGE_SIZE) && |file| >= 2
      ensures Blocks(r, DB_PAGE_SIZE) && |r| == |file| + 1 && r[..2] == file[..2]
      ensures DecodePages(r) == DecodePages(file) + [page]
    {
      hide DbCodec.PageBytes, DbCodec.DecodePage, DecodePages;
      var buf := new byte[DB_PAGE_SIZE];
      DbCodec.SerializePage(page, buf);
      StoredPage(file, |file|, page);
      r := StoreBlock(file, |file|, buf[..]);
    }

    /** Copies the pages of one record to a temporary file. */
    method CopyRecord(file: seq<bytes>, i: int, page: DBPage, n: uint16) returns (r: seq<bytes>)
      requires Valid() && |dataFile| >= 2 && 2 <= i < |dataFile| && page == DiskView().pages[i - 2]
      requires Blocks(file, DB_PAGE_SIZE) && |file| >= 2
      ensures Blocks(r, DB_PAGE_SIZE) && |r| == |file| + n && r[..2] == file[..2]
      ensures DecodePages(r) == DecodePages(file) + CopiedRun(DiskView().pages, i - 2, n)
    {
      hide IndexPart, Crc.CrcTable.Valid, BTree.BTree.Valid, BTree.DecodeFile, DbCodec.DecodeHeader,
        DbCodec.DecodeFreeList, DecodePages, DecodeEntries, CopiedPage;
      r := file;
      ghost var run := CopiedRun(DiskView().pages, i - 2, n);
      for j := 0 to n
        invariant Blocks(r, DB_PAGE_SIZE) && |r| == |file| + j && r[..2] == file[..2]
        invariant DecodePages(r) == DecodePages(file) + run[..j]
      {
        var out := PageToCopy(i, j, page);
        r := AppendPage(r, out);
        assert run[..j + 1] == run[..j] + [run[j]];
      }
      assert run[..n] == run;
    }

    /** A file of a header page and a blank free-list page. */
    static method TemporaryFile(header: DBHeader) returns (file: seq<bytes>)
      ensures Blocks(file, DB_PAGE_SIZE) && |file| == 2 && DecodePages(file) == []
      ensures DbCodec.DecodeHeader(file[0]) == header && DbCodec.DecodeFreeList(file[1]) == NoFreePages()
    {
      hide IndexPart, DbCodec.HeaderBytes, DbCodec.DecodeHeader, DbCodec.DecodeFreeList, NoFreePages;
      var buf := new byte[DB_PAGE_SIZE];
      DbCodec.SerializeHeader(header, buf);
      DbCodec.HeaderRoundTrip(header);
      BlankFreeList();
      file := [buf[..], Zeros(DB_PAGE_SIZE)];
    }

    /** Copies the records one after the other to a temporary file. */
    method CopyRecords() returns (file: seq<bytes>)
      requires Valid() && isOpen
      ensures Blocks(file, DB_PAGE_SIZE) && |file| >= 2
      ensures DbCodec.DecodeHeader(file[0]) == header && DbCodec.DecodeFreeList(file[1]) == NoFreePages()
      ensures DecodePages(file) == CompactFrom(DiskView().pages, CalculatePagesNeeded(header.recordSize), 0)
    {
      hide IndexPart, Crc.CrcTable.Valid, BTree.BTree.Valid, BTree.DecodeFile, DbCodec.DecodeHeader,
        DbCodec.DecodeFreeList, DecodePages, DecodeEntries, CopiedRun, NoFreePages, CompactFrom,
        CalculatePagesNeeded, CopiedAnd;
      var n := CalculatePagesNeeded(header.recordSize);
      file := TemporaryFile(header);
      ghost var start, pages := file, DiskView().pages;
      CompactStart(pages, n);
      var total := GetTotalPages();
      var i: int := 2;
      while i < total
        invariant 2 <= i && Blocks(file, DB_PAGE_SIZE) && |file| >= 2 && file[..2] == start[..2]
        invariant CopiedAnd(DecodePages(file), pages, n, i - 2) == CompactFrom(pages, n, 0)
        decreases total - i
      {
        var read, page := ReadPageFromDisk(i);
        CompactStep(pages, n, i - 2, DecodePages(file));
        if page.status == PS_ACTIVE {
          file := CopyRecord(file, i, page, n);
          i := i + (n - 1);
        }
        i := i + 1;
      }
      CompactEnd(pages, n, i - 2, DecodePages(file));
      assert file[0] == file[..2][0] && file[1] == file[..2][1];
    }

    /** Removes the data file and takes the given file in its place. */
    method SwapFile(file: seq<bytes>)
      requires Valid() && isOpen && Blocks(file, DB_PAGE_SIZE) && 2 <= |file|
      requires |DecodePages(file)| <= Allocator.MAX_PAGES
      modifies `dataFile, `trace
      ensures Valid() && |dataFile| >= 2
      ensures var w := ReplaceFile(DbCodec.DecodeHeader(file[0]), DbCodec.DecodeFreeList(file[1]), DecodePages(file));
        trace == old(trace) + [RemoveFile] + [w] && DiskView() == Apply(Apply(old(DiskView()), RemoveFile), w)
    {
      hide IndexPart, Crc.CrcTable.Valid, BTree.BTree.Valid, BTree.DecodeFile, DbCodec.DecodeHeader,
        DbCodec.DecodeFreeList, DecodePages, DecodeEntries;
      PagesLength(file);
      dataFile := [];
      IndexPartOne(trace, RemoveFile);
      trace := trace + [RemoveFile];
      dataFile := file;
      ghost var w := ReplaceFile(DbCodec.DecodeHeader(file[0]), DbCodec.DecodeFreeList(file[1]), DecodePages(file));
      IndexPartOne(trace, w);
      trace := trace + [w];
    }

    lemma SizeOfView()
      requires Valid() && |dataFile| >= 2
      ensures PagesPer(View()) == CalculatePagesNeeded(header.recordSize)
    {
    }

    /** Replaces the data file by a copy without gaps and notes the time in the header. */
    method CopyDataFile(now: int32)
      requires Valid() && isOpen && |CompactFrom(DiskView().pages, PagesPer(View()), 0)| <= Allocator.MAX_PAGES
      modifies `dataFile, `header, `trace
      ensures Valid() && |dataFile| >= 2
        && MemoryView() == old(MemoryView()).(header := old(header).(lastCompacted := now))
      ensures DiskView().pages == CompactFrom(old(DiskView()).pages, PagesPer(old(View())), 0)
      ensures Wrote(old(DiskView()), old(trace),
                    [RemoveFile] + [ReplaceFile(old(header), NoFreePages(), DiskView().pages)] + [PutHeader(header)])
    {
      hide Database.Valid, Database.DiskView, Blocks, DecodePages, ApplyAll, CompactFrom, NoFreePages, PagesPer,
        CalculatePagesNeeded;
      Shape();
      SizeOfView();
      ghost var d, t := DiskView(), trace;
      var file := CopyRecords();
      SwapFile(file);
      ghost var w := ReplaceFile(header, NoFreePages(), DecodePages(file));
      ApplyOne(d, RemoveFile);
      ThenOne(d, t, [RemoveFile], w);
      header := header.(lastCompacted := now);
      WriteHeaderToDisk();
      ThenOne(d, t, [RemoveFile] + [w], PutHeader(header));
    }

    /** The steps of CompactDatabase. */
    method ReplaceDataFile(now: int32)
      requires Valid() && isOpen && |CompactFrom(DiskView().pages, PagesPer(View()), 0)| <= Allocator.MAX_PAGES
      modifies this, freePages, primaryIndex
      ensures Valid() && isOpen
      ensures var o := Compact(old(View()), now); MemoryView() == o.mem && Wrote(old(DiskView()), old(trace), o.writes)
    {
      hide Database.Valid, Database.DiskView, ApplyAll, RebuildWrites, CompactFrom, Allocator.Refilled, NoFreePages,
        PagesPer;
      Shape();
      ghost var s, d, t := View(), DiskView(), trace;
      CopyDataFile(now);
      ghost var pages := DiskView().pages;
      ghost var ws := [RemoveFile] + [ReplaceFile(s.mem.header, NoFreePages(), pages)] + [PutHeader(header)];
      Shape();
      var rebuilt := RebuildPrimaryIndex();
      Then(d, t, ws, RebuildWrites(pages));
      RebuildEffect(ApplyAll(d, ws));
      var updated := UpdateFreePages();
      Then(d, t, ws + RebuildWrites(pages), [PutFree(Allocator.Refilled(pages))]);
    }

    /** Replaces the data file by a copy without gaps. `now` is the time of the compaction. */
    method CompactDatabase(now: int32) returns (ok: bool)
      requires Valid()
      requires isOpen ==> |CompactFrom(DiskView().pages, PagesPer(View()), 0)| <= Allocator.MAX_PAGES
      modifies this, freePages, primaryIndex
      ensures Valid() && isOpen == old(isOpen) && ok == isOpen
      ensures !ok ==> trace == old(trace) && MemoryView() == old(MemoryView())
      ensures ok ==>
        var o := Compact(old(View()), now); MemoryView() == o.mem && Wrote(old(DiskView()), old(trace), o.writes)
      ensures ok && Full(old(View())) ==>
        && Full(View()) && Data(View()) == Data(old(View()))
        && |dataFile| == 2 + PagesPer(View()) * |Data(View())| && freePageCount == 0 && freePageListLen == 0
    {
      hide IndexPart, Crc.CrcTable.Valid, BTree.BTree.Valid, BTree.DecodeFile, DbCodec.DecodeHeader,
        DbCodec.DecodeFreeList, DecodePages, DecodeEntries, ApplyAll, CompactFrom, Full, Data, Compact, PagesPer,
        CalculatePagesNeeded, Core, Coherent;
      if !isOpen {
        return false;
      }
      ghost var s := View();
      ReplaceDataFile(now);
      if Full(s) {
        CompactKeeps(s, now);
        CompactedSize(s, View(), now);
      }
      return true;
    }

    // ---- Recovery ----

    /** The checksum of a journal entry; computing it may only fill the table. */
    method EntryChecksum(entry: DBJournalEntry) returns (checksum: uint16)
      requires Valid() && |dataFile| >= 2
      modifies crc, crc.table
      ensures Valid() && DiskView() == old(DiskView()) && checksum == DbCodec.ComputeChecksum(entry)
    {
      hide IndexPart, Crc.CrcTable.Valid, BTree.BTree.Valid, BTree.DecodeFile, DbCodec.DecodeHeader,
        DbCodec.DecodeFreeList, DecodePages, DecodeEntries, DbCodec.DecodeJournal, DbCodec.ComputeChecksum;
      checksum := DbCodec.ComputeJournalChecksum(crc, entry);
    }

    /** Replays one journal record, unless its checksum is wrong or its operation unknown. */
    method ReplayEntry(block: bytes)
      requires Valid() && |dataFile| >= 2 && |block| == DB_JOURNAL_ENTRY_SIZE
      requires |RedoOne(DiskView().pages, DbCodec.DecodeJournal(block))| <= Allocator.MAX_PAGES
      modifies `dataFile, `trace, crc, crc.table
      ensures Valid() && |dataFile| >= old(|dataFile|)
      ensures var w := RedoWrite(old(DiskView()).pages, DbCodec.DecodeJournal(block));
        && (w.None? ==> trace == old(trace) && DiskView() == old(DiskView()))
        && (w.Some? ==>
              && w.value.0 + 2 < 0x8000_0000 && trace == old(trace) + [PutPage(w.value.0 + 2, w.value.1)]
              && DiskView() == Apply(old(DiskView()), PutPage(w.value.0 + 2, w.value.1)))
    {
      hide Database.Valid, Database.DiskView, Crc.CrcTable.Valid, DbCodec.DecodeJournal, DbCodec.ComputeChecksum,
        StorePage, Apply;
      Shape();
      var entry := DbCodec.DecodeJournal(block);
      var expected := EntryChecksum(entry);
      if entry.checksum != expected {
        return;
      }
      if entry.operation == JO_UPDATE {
        if entry.pageNum >= 2 {
          WritePageToDisk(entry.pageNum, Page(entry.recordId, entry.data[0], 0, entry.data[1..]));
        }
      } else if entry.operation == JO_DELETE {
        if entry.pageNum >= 2 {
          WritePageToDisk(entry.pageNum, EMPTY_PAGE);
        }
      } else if entry.operation == JO_ADD {
        var target := entry.pageNum;
        if entry.pageNum < 2 {
          target := GetTotalPages();
        }
        WritePageToDisk(target, Page(entry.recordId, entry.data[0], 0, entry.data[1..]));
      }
    }

    /** Replays the k-th entry of a journal whose first `k` entries have been replayed. */
    method ReplayNext(k: nat, ghost d: Disk, ghost t: seq<Write>, ghost es: seq<DBJournalEntry>)
      requires Valid() && |dataFile| >= 2 && journalFile.Some? && k < |journalFile.value|
        && DecodeEntries(journalFile.value) == es
      requires |Redo(es, d.pages)| <= Allocator.MAX_PAGES && |Redo(es[..k], d.pages)| <= Allocator.MAX_PAGES
      requires DiskView().pages == Redo(es[..k], d.pages) && Wrote(d, t, RedoWrites(es[..k], d.pages))
      modifies `dataFile, `trace, crc, crc.table
      ensures Valid() && |dataFile| >= 2 && |Redo(es[..k + 1], d.pages)| <= Allocator.MAX_PAGES
      ensures DiskView().pages == Redo(es[..k + 1], d.pages) && Wrote(d, t, RedoWrites(es[..k + 1], d.pages))
    {
      hide IndexPart, Crc.CrcTable.Valid, BTree.BTree.Valid, BTree.DecodeFile, DbCodec.DecodeHeader,
        DbCodec.DecodeFreeList, DecodePages, DecodeEntries, DbCodec.DecodeJournal, RedoWrite, RedoOne, Apply,
        ApplyAll, Redo, RedoWrites;
      RedoStep(d, t, es, k);
      EntryAt(journalFile.value, k);
      ReplayEntry(journalFile.value[k]);
    }

    /** Replays the whole journal. */
    method ReplayEntries()
      requires Valid() && |dataFile| >= 2 && journalFile.Some? && Replayable(DiskView())
      modifies `dataFile, `trace, crc, crc.table
      ensures Valid() && |dataFile| >= 2
        && Wrote(old(DiskView()), old(trace), RedoWrites(old(DiskView()).journal.value, old(DiskView()).pages))
    {
      hide IndexPart, Crc.CrcTable.Valid, BTree.BTree.Valid, BTree.DecodeFile, DbCodec.DecodeHeader,
        DbCodec.DecodeFreeList, DecodePages, DecodeEntries, DbCodec.DecodeJournal, RedoWrite, RedoOne, Apply,
        ApplyAll, Redo, RedoWrites;
      ghost var d, t, es := DiskView(), trace, DiskView().journal.value;
      NothingWritten(d, t);
      NoRedo(es, d.pages);
      var k := 0;
      while k < |journalFile.value|
        invariant Valid() && |dataFile| >= 2 && journalFile == old(journalFile) && 0 <= k <= |es| == |journalFile.value|
        invariant |Redo(es[..k], d.pages)| <= Allocator.MAX_PAGES && DiskView().pages == Redo(es[..k], d.pages)
        invariant Wrote(d, t, RedoWrites(es[..k], d.pages))
      {
        ReplayNext(k, d, t, es);
        k := k + 1;
      }
      assert es[..|es|] == es;
    }

    /** Replays the journal and rebuilds the index. */
    method RecoverPages()
      requires Valid() && isOpen && journalFile.Some? && Replayable(DiskView())
      modifies primaryIndex, `dataFile, `trace, crc, crc.table
      ensures Valid() && |DiskView().pages| <= Allocator.MAX_PAGES && DiskView().pages == Redone(old(DiskView()))
      ensures var d := old(DiskView());
        Wrote(d, old(trace), RedoWrites(d.journal.value, d.pages) + RebuildWrites(DiskView().pages))
    {
      hide IndexPart, Crc.CrcTable.Valid, BTree.BTree.Valid, BTree.DecodeFile, DbCodec.DecodeHeader,
        DbCodec.DecodeFreeList, DecodePages, DecodeEntries, ApplyAll, RebuildWrites, Redo, RedoWrites, Scanned,
        LeafOf;
      ghost var d, t := DiskView(), trace;
      RedoWritesEffect(d, d.journal.value);
      ReplayEntries();
      ghost var d1, pages := DiskView(), DiskView().pages;
      var rebuilt := RebuildPrimaryIndex();
      Then(d, t, RedoWrites(d.journal.value, d.pages), RebuildWrites(pages));
      RebuildEffect(d1);
    }

    /** Counts the records, refills the free list and clears the pending flag and then the journal. */
    method FinishRecovery()
      requires Valid() && isOpen && !journalOpen
      modifies `header, `freePageCount, `freePageListLen, freePages, `dataFile, `journalFile, `trace
      ensures Valid()
      ensures var d, h := old(DiskView()),
        old(header).(recordCount := ActiveCount(old(DiskView()).pages), journalPending := false);
        && MemoryView() == Memory(h, Allocator.Refilled(d.pages), false)
        && Wrote(d, old(trace), [PutFree(Allocator.Refilled(d.pages))] + [PutHeader(h)] + [ClearJournal])
    {
      hide Database.Valid, Database.DiskView, Apply, ApplyAll, Allocator.Refilled, ActiveCount;
      Shape();
      ghost var d, t := DiskView(), trace;
      var active := CountActive();
      header := header.(recordCount := active);
      var updated := UpdateFreePages();
      ghost var f := Allocator.Refilled(d.pages);
      assert MemoryView() == Memory(header, f, false);
      ClearPending(d, t, [PutFree(f)]);
    }

    /** Clears the pending flag and then the journal, after the writes `ws`. */
    method ClearPending(ghost d: Disk, ghost t: seq<Write>, ghost ws: seq<Write>)
      requires Valid() && |dataFile| >= 2 && Wrote(d, t, ws)
      modifies `header, `dataFile, `journalFile, `trace
      ensures Valid() && header == old(header).(journalPending := false)
      ensures Wrote(d, t, ws + [PutHeader(header)] + [ClearJournal])
    {
      hide Database.Valid, Database.DiskView, Apply, ApplyAll;
      Shape();
      header := header.(journalPending := false);
      WriteHeaderToDisk();
      ThenOne(d, t, ws, PutHeader(header));
      ClearJournalFile();
      ThenOne(d, t, ws + [PutHeader(header)], ClearJournal);
    }

    /** Recovers from an unfinished transaction; without a journal file only the pending flag is cleared. */
    method ReplayJournal()
      requires Valid() && isOpen && !journalOpen && header == DiskView().header
      requires journalFile.Some? ==> Replayable(DiskView())
      modifies this, freePages, primaryIndex, crc, crc.table
      ensures Valid() && isOpen
      ensures old(journalFile).None? ==>
        var h := old(header).(journalPending := false);
        MemoryView() == old(MemoryView()).(header := h) && Wrote(old(DiskView()), old(trace), [PutHeader(h)])
      ensures old(journalFile).Some? ==>
        var o := Replay(old(DiskView())); MemoryView() == o.mem && Wrote(old(DiskView()), old(trace), o.writes)
    {
      hide IndexPart, Crc.CrcTable.Valid, BTree.BTree.Valid, BTree.DecodeFile, DbCodec.DecodeHeader,
        DbCodec.DecodeFreeList, DecodePages, DecodeEntries, ApplyAll, RebuildWrites, Allocator.Refilled, Redo,
        RedoWrites, ActiveCount;
      ghost var d, t := DiskView(), trace;
      if journalFile.None? {
        header := header.(journalPending := false);
        WriteHeaderToDisk();
        ApplyOne(d, PutHeader(header));
        return;
      }
      RecoverPages();
      ghost var pages := DiskView().pages;
      ghost var ws := RedoWrites(d.journal.value, d.pages) + RebuildWrites(pages);
      FinishRecovery();
      Then(d, t, ws, [PutFree(Allocator.Refilled(pages))] + [PutHeader(header)] + [ClearJournal]);
      assert ws + ([PutFree(Allocator.Refilled(pages))] + [PutHeader(header)] + [ClearJournal])
          == ws + [PutFree(Allocator.Refilled(pages))] + [PutHeader(header)] + [ClearJournal];
    }

    /** The number of active pages. */
    method CountActive() returns (active: int32)
      requires Valid() && isOpen
      ensures |DiskView().pages| <= Allocator.MAX_PAGES && active == ActiveCount(DiskView().pages)
    {
      hide IndexPart, Crc.CrcTable.Valid, BTree.BTree.Valid, BTree.DecodeFile, DbCodec.DecodeHeader,
        DbCodec.DecodeFreeList, DecodePages, DecodeEntries, Count;
      ghost var pages := DiskView().pages;
      var total := GetTotalPages();
      active := 0;
      NoneCounted(pages);
      CountAtMost(pages, PS_ACTIVE);
      for i := 2 to total
        invariant active == Count(pages[..i - 2], PS_ACTIVE)
      {
        var read, page := ReadPageFromDisk(i);
        CountNext(pages, i - 2);
        CountAtMost(pages[..i - 1], PS_ACTIVE);
        if page.status == PS_ACTIVE {
          active := active + 1;
        }
      }
      assert pages[..|pages|] == pages;
    }

    // ---- Creating, opening and closing ----

    static method HeaderPage(h: DBHeader) returns (page: bytes)
      ensures |page| == DB_PAGE_SIZE && DbCodec.DecodeHeader(page) == h && page == DbCodec.HeaderBytes(h)
    {
      hide DbCodec.HeaderBytes, DbCodec.DecodeHeader;
      var buf := new byte[DB_PAGE_SIZE];
      DbCodec.SerializeHeader(h, buf);
      DbCodec.HeaderRoundTrip(h);
      page := buf[..];
    }

    static method FreeListPage(f: DBFreeList) returns (page: bytes)
      ensures |page| == DB_PAGE_SIZE && DbCodec.DecodeFreeList(page) == f && page == DbCodec.FreeListBytes(f)
    {
      hide DbCodec.FreeListBytes, DbCodec.DecodeFreeList;
      var buf := new byte[DB_PAGE_SIZE];
      DbCodec.SerializeFreeList(f, buf);
      DbCodec.FreeListRoundTrip(f);
      page := buf[..];
    }

    method CreateIndexFile()
      requires Valid() && |dataFile| >= 2 && !isOpen && !primaryIndex.isOpen
      modifies primaryIndex, `trace
      ensures Valid() && trace == old(trace) + CreateIndexWrites()
      ensures DiskView() == old(DiskView()).(index := BTree.Ready(BTree.EmptyLeaf()))
      ensures primaryIndex.file == NewIndexFile()
    {
      hide IndexPart, Crc.CrcTable.Valid, BTree.BTree.Valid, BTree.DecodeFile, DbCodec.DecodeHeader,
        DbCodec.DecodeFreeList, DecodePages, DecodeEntries, BTree.EmptyLeaf, CreateIndexWrites, BTree.HeaderPage,
        Leaf.LeafPage;
      CreatedIndexBytes();
      ghost var logged := |primaryIndex.log|;
      primaryIndex.CreateBTree();
      RecordIndexWrites(logged);
      CreatePuts();
      assert primaryIndex.log[logged..] == [BTree.Truncated, BTree.HeaderWritten, BTree.LeafWritten(BTree.EmptyLeaf())];
    }

    method CreateDataFile(recordSize: uint16)
      requires Valid() && !isOpen
      modifies `dataFile, `trace
      ensures Valid() && |dataFile| == 2 && trace == old(trace) + CreateDataWrites(recordSize)
      ensures DiskView().leading == 2
        && DiskView().header == Created(recordSize, None).header && DiskView().free == Created(recordSize, None).free
      ensures DiskView().pages == [] && DiskView().index == primaryIndex.View()
      ensures dataFile == NewDataFile(recordSize)
      ensures DiskView().journal == if journalFile.None? then None else Some(DecodeEntries(journalFile.value))
    {
      hide IndexPart, Crc.CrcTable.Valid, BTree.BTree.Valid, BTree.DecodeFile, DbCodec.DecodeHeader,
        DbCodec.DecodeFreeList, DecodePages, DecodeEntries, Created, DbCodec.HeaderBytes, DbCodec.FreeListBytes;
      var page0 := HeaderPage(Created(recordSize, None).header);
      var page1 := FreeListPage(Created(recordSize, None).free);
      CreatedBytes(recordSize, None);
      dataFile, trace := [], trace + [RemoveFile];
      dataFile, trace := dataFile + [page0], trace + [BeginFile(Created(recordSize, None).header)];
      dataFile, trace := dataFile + [page1], trace + [ListFile(Created(recordSize, None).free)];
      DataWritesPart(old(trace), recordSize);
      assert trace == old(trace) + CreateDataWrites(recordSize);
    }

    /** Makes the files of an empty database, byte by byte as given by NewDataFile and NewIndexFile. */
    method CreateDatabase(recordSize: uint16) returns (ok: bool)
      requires Valid() && !isOpen && !primaryIndex.isOpen
      modifies `dataFile, `trace, primaryIndex
      ensures Valid() && (ok <==> recordSize > 0)
      ensures !ok ==> dataFile == old(dataFile) && trace == old(trace)
      ensures ok ==>
        && |dataFile| == 2 && trace == old(trace) + CreateWrites(recordSize)
        && DiskView() == Created(recordSize, if journalFile.None? then None else Some(DecodeEntries(journalFile.value)))
      ensures ok ==>
        && dataFile == NewDataFile(recordSize) && primaryIndex.file == NewIndexFile()
        && DiskView().header == Header([86, 68, 66, 0], 1, 512, recordSize, 0, 1, 0, false, 0, [0, 0, 0, 0, 0, 0, 0, 0],
                                       seq(15, _ => IndexInfo(Zeros(30), 0, 0)))
        && DiskView().free == FreeList(0, 0, seq(127, _ => 0)) && DiskView().pages == []
        && DiskView().index == BTree.Ready(Leaf.Leaf(3, 0, []))
    {
      hide IndexPart, Crc.CrcTable.Valid, BTree.BTree.Valid, BTree.DecodeFile, DbCodec.DecodeHeader,
        DbCodec.DecodeFreeList, DecodePages, DecodeEntries, BTree.EmptyLeaf, CreateDataWrites, CreateIndexWrites,
        Database.Valid, Database.DiskView;
      if recordSize == 0 {
        return false;
      }
      CreateDataFile(recordSize);
      CreateIndexFile();
      CreatedHeader(recordSize, DiskView().journal);
      CreatedLeaf(recordSize, DiskView().journal);
      return true;
    }

    method LoadFreeList(free: DBFreeList)
      requires freePages.Length == DB_MAX_FREE_PAGES
      modifies `freePageCount, `freePageListLen, freePages
      ensures MemoryView() == old(MemoryView()).(free := free)
    {
      freePageCount, freePageListLen := free.count, free.len;
      for k := 0 to DB_MAX_FREE_PAGES
        invariant freePageCount == free.count && freePageListLen == free.len
        invariant freePages[..k] == free.slots[..k]
      {
        freePages[k] := free.slots[k];
      }
      assert free.slots[..DB_MAX_FREE_PAGES] == free.slots;
    }

    /** The bytes at the start of the data file and of the index file that opening looks at. */
    lemma Signatures()
      requires Valid()
      ensures |dataFile| >= 2 ==>
        |dataFile[0]| == 512 && (DiskView().header.signature == DB_SIGNATURE <==> dataFile[0][..4] == [86, 68, 66, 0])
      ensures |primaryIndex.file| >= 1 ==> |primaryIndex.file[0]| == 512
      ensures |dataFile| >= 2 ==>
        (DiskView().index.NoHeader? <==>
           !(|primaryIndex.file| >= 1 && primaryIndex.file[0][..4] == [66, 84, 82, 69]))
    {
      hide IndexPart, Crc.CrcTable.Valid, DbCodec.DecodeFreeList, DecodePages, DecodeEntries, Leaf.DecodeLeaf;
    }

    /** Reads the header, the free list and the header page of the index. */
    method LoadFiles() returns (ok: bool)
      requires Valid() && !isOpen
      modifies this, freePages, primaryIndex
      ensures Valid() && isOpen == ok && trace == old(trace) && dataFile == old(dataFile)
        && journalFile == old(journalFile)
      ensures ok <==>
        |dataFile| >= 2 && old(DiskView()).header.signature == DB_SIGNATURE && !old(DiskView()).index.NoHeader?
      ensures ok ==>
        && DiskView() == old(DiskView()) && MemoryView() == Memory(DiskView().header, DiskView().free, false)
        && (DiskView().journal.None? <==> journalFile.None?)
    {
      hide IndexPart, Crc.CrcTable.Valid, BTree.DecodeFile, BTree.DecodeHeader, DbCodec.DecodeHeader,
        DbCodec.DecodeFreeList, DecodePages, DecodeEntries, BTree.BTree.Valid;
      ok := false;
      if |dataFile| < 2 {
        return;
      }
      var h := DbCodec.DecodeHeader(dataFile[0]);
      if h.signature != DB_SIGNATURE {
        return;
      }
      LoadFreeList(DbCodec.DecodeFreeList(dataFile[1]));
      var indexOpen := primaryIndex.OpenBTree();
      if !indexOpen {
        return;
      }
      header, journalOpen, isOpen := h, false, true;
      return true;
    }

    /** Opens the files, and recovers when a transaction was not finished. */
    method OpenDatabase() returns (ok: bool)
      requires Valid() && !isOpen
      requires |dataFile| >= 2 && DiskView().header.journalPending ==> journalFile.None? || Replayable(DiskView())
      modifies this, freePages, primaryIndex, crc, crc.table
      ensures Valid() && isOpen == ok
      ensures ok <==>
        && old(|dataFile|) >= 2 && old(dataFile)[0][..4] == [86, 68, 66, 0]
        && old(|primaryIndex.file|) >= 1 && old(primaryIndex.file)[0][..4] == [66, 84, 82, 69]
      ensures ok <==> old(|dataFile|) >= 2 && Open(old(DiskView())).Some?
      ensures ok ==>
        var o := Open(old(DiskView())).value; MemoryView() == o.mem && Wrote(old(DiskView()), old(trace), o.writes)
      ensures !ok ==> trace == old(trace) && dataFile == old(dataFile)
    {
      Signatures();
      hide Database.Valid, Database.DiskView, Replay, Replayable;
      ok := LoadFiles();
      if ok {
        Shape();
        NothingWritten(DiskView(), trace);
        if header.journalPending {
          ReplayJournal();
        }
      }
    }

    /** Writes the header and the free list back and closes every file. */
    method CloseDatabase()
      requires Valid()
      modifies this, primaryIndex
      ensures Valid() && !isOpen
      ensures !old(isOpen) ==> trace == old(trace) && dataFile == old(dataFile)
      ensures old(isOpen) ==>
        Wrote(old(DiskView()), old(trace), CloseWrites(old(MemoryView()))) && DiskView() == Closed(old(View()))
    {
      hide Database.Valid, Database.DiskView, Apply, ApplyAll;
      if !isOpen {
        return;
      }
      Shape();
      ghost var d, t := DiskView(), trace;
      WriteHeaderToDisk();
      ApplyOne(d, PutHeader(header));
      WriteFreeListToDisk();
      ThenOne(d, t, [PutHeader(header)], PutFree(MemoryView().free));
      MarkClosed();
      CloseIndexFile();
      ThenOne(d, t, [PutHeader(header)] + [PutFree(MemoryView().free)], PutIndex(BTree.HeaderWritten));
    }

    method MarkClosed()
      requires Valid() && |dataFile| >= 2
      modifies `isOpen, `journalOpen
      ensures Valid() && !isOpen && !journalOpen && DiskView() == old(DiskView())
    {
      hide IndexPart, Crc.CrcTable.Valid, BTree.BTree.Valid, BTree.DecodeFile, DbCodec.DecodeHeader,
        DbCodec.DecodeFreeList, DecodePages, DecodeEntries;
      journalOpen := false;
      isOpen := false;
    }

    method CloseIndexFile()
      requires Valid() && |dataFile| >= 2 && !isOpen && primaryIndex.isOpen
      modifies primaryIndex, `trace
      ensures Valid() && !primaryIndex.isOpen
      ensures trace == old(trace) + [PutIndex(BTree.HeaderWritten)]
      ensures DiskView() == Apply(old(DiskView()), PutIndex(BTree.HeaderWritten))
    {
      hide IndexPart, Crc.CrcTable.Valid, BTree.BTree.Valid, BTree.DecodeFile, BTree.DecodeHeader,
        DbCodec.DecodeHeader, DbCodec.DecodeFreeList, DecodePages, DecodeEntries, ApplyAll;
      ghost var logged := |primaryIndex.log|;
      primaryIndex.CloseBTree();
      RecordIndexWrites(logged);
      assert primaryIndex.log[logged..] == [BTree.HeaderWritten];
      assert IndexPuts([BTree.HeaderWritten]) == [PutIndex(BTree.HeaderWritten)];
    }

    // ---- Lookup by string ----

    /** The index listed for a field, by its name without regard to case. */
    method FindIndexInfo(field: bytes) returns (info: Option<DBIndexInfo>)
      requires header.indexCount <= DB_MAX_INDEXES && NamesTerminated(header.indexes) && Strings.Terminated(field)
      ensures info == HeaderIndex(header, Strings.Text(field))
    {
      hide Strings.Lower, Strings.Text, Strings.Before;
      ghost var infos := header.indexes[..header.indexCount];
      for i := 0 to header.indexCount
        invariant HeaderIndex(header, Strings.Text(field)) == IndexFor(infos, Strings.Text(field), i)
      {
        var order := Strings.StrCompareI(header.indexes[i].fieldName, field);
        if order == 0 {
          return Some(header.indexes[i]);
        }
      }
      return None;
    }

    method GenerateIndexKey(indexType: byte, value: bytes) returns (key: int32)
      requires crc.Valid() && if indexType == IT_STRING then Strings.Terminated(value) else |value| >= 4
      modifies crc, crc.table
      ensures crc.Valid() && key == KeyFor(indexType, value)
    {
      if indexType == IT_STRING {
        key := Strings.StringKey(crc, value);
      } else {
        key := UnLE32(value[..4]);
      }
    }

    /** The ids entered in a secondary index under a key, at most sixteen of them. */
    method FindCandidates(index: BTree.BTree, key: int32) returns (ids: seq<int32>)
      requires index.Valid()
      modifies index
      ensures index.Valid() && index.View() == old(index.View()) && ids == Candidates(index.View(), key)
    {
      hide BTree.DecodeFile, BTree.DecodeHeader, BTree.LookIn;
      ids := [];
      var found := index.OpenBTree();
      if !found {
        NoHeaderFinds(index.View(), key);
        return;
      }
      var candidates := new int32[MAX_CANDIDATES];
      var count;
      found, count := index.Find(key, candidates, MAX_CANDIDATES);
      index.CloseBTree();
      if found {
        ids := candidates[..count];
      }
    }

    /** Reads the first of the given ids that has a record. */
    method FindFirst(ids: seq<int32>, data: array<byte>) returns (ok: bool, id: int32)
      requires Valid() && isOpen && data.Length >= header.recordSize
      modifies data
      ensures Valid() && Blocks(dataFile, DB_PAGE_SIZE)
      ensures var r := FirstInFile(dataFile, DiskView().index, header.recordSize, ids, 0);
        && (ok <==> r.Some?)
        && (ok ==> r.value.0 == id && r.value.1 == data[..header.recordSize])
    {
      WholeBlocks();
      hide Database.Valid, Database.DiskView, Addressed, Blocks, FindInFile, FindRecord, FirstInFile;
      ghost var index, size := DiskView().index, header.recordSize;
      ghost var r := FirstInFile(dataFile, index, size, ids, 0);
      for j := 0 to |ids|
        invariant Valid() && DiskView().index == index && r == FirstInFile(dataFile, index, size, ids, j)
      {
        FirstNext(dataFile, index, size, ids, j);
        var found := FindRecordByID(ids[j], data);
        if found {
          assert r == Some((ids[j], data[..size]));
          return true, ids[j];
        }
      }
      FirstNext(dataFile, index, size, ids, |ids|);
      return false, 0;
    }

    /** Finds the first live record among those entered under the value's key in an index. */
    method SearchIndex(info: DBIndexInfo, value: bytes, data: array<byte>) returns (ok: bool, id: int32)
      requires Valid() && isOpen && data.Length >= header.recordSize
      requires if info.indexType == IT_STRING then Strings.Terminated(value) else |value| >= 4
      requires secondary[info.indexNumber].Valid()
      modifies data, secondary[info.indexNumber], crc, crc.table
      ensures Valid() && Blocks(dataFile, DB_PAGE_SIZE)
      ensures var ids := Candidates(old(secondary[info.indexNumber].View()), KeyFor(info.indexType, value));
        var r := FirstInFile(dataFile, DiskView().index, header.recordSize, ids, 0);
        && (ok <==> r.Some?)
        && (ok ==> r.value.0 == id && r.value.1 == data[..header.recordSize])
    {
      hide IndexPart, Crc.CrcTable.Valid, BTree.BTree.Valid, BTree.DecodeFile, DbCodec.DecodeHeader,
        DbCodec.DecodeFreeList, DecodePages, DecodeEntries, BTree.LookIn, KeyFor, Candidates, FirstInFile;
      var key := GenerateIndexKey(info.indexType, value);
      var ids := FindCandidates(secondary[info.indexNumber], key);
      ok, id := FindFirst(ids, data);
    }

    /** What the files of the secondary indexes hold. */
    ghost function Secondaries(): (files: seq<BTree.IndexFile>)
      requires |secondary| == 0x100
      reads this, secondary
      ensures |files| == 0x100
    {
      seq(0x100, i requires 0 <= i < 0x100 reads this, secondary =>
        if secondary[i].Paged() then secondary[i].View() else BTree.NoHeader)
    }

    /** The field's index can be searched for the value. */
    ghost predicate Searchable(field: bytes, value: bytes)
      requires |secondary| == 0x100
      reads this, secondary
    {
      && Askable(header, field, value)
      && forall k: nat :: FirstNamed(header, Strings.Text(field), k) ==>
           secondary[header.indexes[k].indexNumber].Valid()
    }

    /** What a search by string finds in the files, through the index listed for the field. */
    ghost function Expected(field: bytes, value: bytes): Option<(int32, bytes)>
      requires Valid() && |dataFile| >= 2 && |secondary| == 0x100 && Blocks(dataFile, DB_PAGE_SIZE)
        && Searchable(field, value)
      reads this, secondary, primaryIndex, crc, crc.table
    {
      ListedFirst(header, Strings.Text(field));
      match HeaderIndex(header, Strings.Text(field))
      case None => None
      case Some(info) =>
        FirstInFile(dataFile, DiskView().index, header.recordSize,
                    Candidates(secondary[info.indexNumber].View(), KeyFor(info.indexType, value)), 0)
    }

    /** The search through the first index with the field's name. */
    lemma RecordsAnswerAt(field: bytes, value: bytes, k: nat)
      requires Valid() && |dataFile| >= 2 && |secondary| == 0x100 && Blocks(dataFile, DB_PAGE_SIZE)
        && Searchable(field, value) && Coherent(View()) && FirstNamed(header, Strings.Text(field), k)
      ensures k < header.indexCount && secondary[header.indexes[k].indexNumber].Valid()
      ensures
        var data := Data(View());
        var file := secondary[header.indexes[k].indexNumber].View();
        var ids := Under(file, KeyFor(header.indexes[k].indexType, value));
        match Expected(field, value)
        case Some((id, content)) => Answers(data, ids, true, id, content)
        case None => forall id, content :: Answers(data, ids, false, id, content)
    {
      WholeBlocks();
      hide Database.Valid, Database.DiskView, Blocks, Coherent, Data, Answers, FirstInFile, KeyFor, Candidates, Under,
        HeaderIndex, Strings.Text, Strings.EqualButForCase, BTree.DecodeFile;
      IndexListed(header, Strings.Text(field));
      SearchAnswers(dataFile, View(), secondary[header.indexes[k].indexNumber].View(),
                    KeyFor(header.indexes[k].indexType, value));
    }

    /** The search gives what FoundBy says. */
    lemma RecordsAnswer(field: bytes, value: bytes)
      requires Valid() && |dataFile| >= 2 && |secondary| == 0x100 && Blocks(dataFile, DB_PAGE_SIZE)
        && Searchable(field, value) && Coherent(View())
      ensures match Expected(field, value)
        case Some((id, content)) => FoundBy(View(), Secondaries(), field, value, true, id, content)
        case None => forall id, content :: FoundBy(View(), Secondaries(), field, value, false, id, content)
    {
      hide Database.Valid, Database.DiskView, Blocks, Coherent, Data, Answers, Expected, KeyFor, Under, FirstNamed,
        Strings.Text, Strings.EqualButForCase, BTree.DecodeFile, BTree.BTree.Valid;
      UnlistedFails(field, value);
      forall k: nat | FirstNamed(header, Strings.Text(field), k)
        ensures k < header.indexCount
        ensures
          var data := Data(View());
          var ids := Under(Secondaries()[header.indexes[k].indexNumber], KeyFor(header.indexes[k].indexType, value));
          match Expected(field, value)
          case Some((id, content)) => Answers(data, ids, true, id, content)
          case None => forall id, content :: Answers(data, ids, false, id, content)
      {
        RecordsAnswerAt(field, value, k);
        SecondaryAt(header.indexes[k].indexNumber);
      }
    }

    lemma SecondaryAt(i: byte)
      requires |secondary| == 0x100 && secondary[i].Valid()
      ensures Secondaries()[i] == secondary[i].View()
    {
    }

    lemma UnlistedFails(field: bytes, value: bytes)
      requires Valid() && |dataFile| >= 2 && |secondary| == 0x100 && Blocks(dataFile, DB_PAGE_SIZE)
        && Searchable(field, value)
      ensures (forall k :: 0 <= k < header.indexCount ==>
                 !Strings.EqualButForCase(Strings.Text(header.indexes[k].fieldName), Strings.Text(field)))
              ==> Expected(field, value).None?
    {
      hide Database.Valid, Database.DiskView, Blocks, FirstNamed, FirstInFile, KeyFor, Candidates, HeaderIndex,
        Strings.Text, Strings.EqualButForCase;
      IndexListed(header, Strings.Text(field));
    }

    /** Searches through the index that the header lists for the field. */
    method SearchListed(field: bytes, value: bytes, data: array<byte>) returns (ok: bool, id: int32)
      requires Valid() && isOpen && data.Length >= header.recordSize && Searchable(field, value)
        && Blocks(dataFile, DB_PAGE_SIZE)
      modifies data, secondary, crc, crc.table
      ensures Valid() && (ok <==> old(Expected(field, value)).Some?)
      ensures ok ==> old(Expected(field, value)).value == (id, data[..header.recordSize])
    {
      hide IndexPart, Crc.CrcTable.Valid, BTree.BTree.Valid, BTree.DecodeFile, DbCodec.DecodeHeader,
        DbCodec.DecodeFreeList, DecodePages, DecodeEntries, KeyFor, Candidates, HeaderIndex, Strings.Text,
        FirstInFile, FirstNamed;
      ListedFirst(header, Strings.Text(field));
      ok, id := false, 0;
      var info := FindIndexInfo(field);
      if info.Some? {
        ok, id := SearchIndex(info.value, value, data);
      }
    }

    /** Finds a record by the string its secondary index was given for it. The string itself is not compared. */
    method FindRecordByString(field: bytes, value: bytes, data: array<byte>) returns (ok: bool, id: int32)
      requires Valid() && data.Length >= header.recordSize && Searchable(field, value) && Blocks(dataFile, DB_PAGE_SIZE)
      modifies data, secondary, crc, crc.table
      ensures Valid()
      ensures !isOpen ==> !ok
      ensures isOpen ==> (ok <==> old(Expected(field, value)).Some?)
      ensures isOpen && ok ==> old(Expected(field, value)).value == (id, data[..header.recordSize])
      ensures isOpen && Coherent(old(View())) ==>
        && FoundBy(old(View()), old(Secondaries()), field, value, ok, id, data[..header.recordSize])
        && NothingMissed(old(View()), old(Secondaries()), field, value, ok, id, data[..header.recordSize])
    {
      hide Database.Valid, Database.DiskView, Blocks, Coherent, Expected, FoundBy, NothingMissed, Askable;
      ok, id := false, 0;
      if !isOpen {
        return;
      }
      Shape();
      if Coherent(View()) {
        RecordsAnswer(field, value);
      }
      ok, id := SearchListed(field, value, data);
      if Coherent(old(View())) {
        NoFalseNegatives(old(View()), old(Secondaries()), field, value, ok, id, data[..header.recordSize]);
      }
    }
  }
}
