/** The database on disk as its atomic writes change it, and the part of a database that lives in memory. */
module Disk {
  import opened Words
  import opened DbTypes
  import opened Pages
  import BTree

  /** What the files hold: how many of its two leading pages the data file has, none when it is missing; the header
      and the free list that these pages hold; the data pages; the journal if there is a journal file; and the primary
      index. */
  datatype Disk = Disk(leading: nat, header: DBHeader, free: DBFreeList, pages: Store,
    journal: Option<seq<DBJournalEntry>>, index: BTree.IndexFile)

  /** What an open database keeps in memory. */
  datatype Memory = Memory(header: DBHeader, free: DBFreeList, journalOpen: bool)

  /** The atomic, durable writes; a program is the sequence of the writes it makes. The data file is removed or emptied
      before a new one takes its place: a renamed one at once, one that is created page by page. */
  datatype Write =
    | PutHeader(header: DBHeader)
    | PutFree(free: DBFreeList)
    | PutPage(num: int32, page: DBPage)
    | AppendJournal(entry: DBJournalEntry)
    | ClearJournal
    | PutIndex(change: BTree.IndexWrite)
    | RemoveFile
    | ReplaceFile(header: DBHeader, free: DBFreeList, pages: Store)
    | BeginFile(header: DBHeader)
    | ListFile(free: DBFreeList)

  /** Writing a page beyond the end of the file leaves zeros between. */
  function StorePage(pages: Store, slot: nat, p: DBPage): (r: Store)
    ensures slot < |r| && r[slot] == p && |r| >= |pages|
    ensures forall s :: 0 <= s < |pages| && s != slot ==> r[s] == pages[s]
  {
    if slot < |pages| then pages[slot := p] else pages + Empties(slot - |pages|) + [p]
  }

  function Apply(d: Disk, w: Write): Disk {
    match w
    case PutHeader(h) => d.(header := h)
    case PutFree(f) => d.(free := f)
    case PutPage(n, p) => if n >= 2 then d.(pages := StorePage(d.pages, n - 2, p)) else d
    case AppendJournal(e) => if d.journal.Some? then d.(journal := Some(d.journal.value + [e])) else d
    case ClearJournal => d.(journal := Some([]))
    case PutIndex(c) => d.(index := BTree.ApplyIndex(d.index, c))
    case RemoveFile => d.(leading := 0, pages := [])
    case ReplaceFile(h, f, ps) => d.(leading := 2, header := h, free := f, pages := ps)
    case BeginFile(h) => d.(leading := 1, header := h)
    case ListFile(f) => d.(leading := 2, free := f)
  }

  function ApplyAll(d: Disk, ws: seq<Write>): Disk {
    if ws == [] then d else Apply(ApplyAll(d, ws[..|ws| - 1]), ws[|ws| - 1])
  }

  lemma {:induction false} ApplyConcat(d: Disk, a: seq<Write>, b: seq<Write>)
    ensures ApplyAll(d, a + b) == ApplyAll(ApplyAll(d, a), b)
    decreases |b|
  {
    if b == [] {
      assert a + b == a;
    } else {
      assert (a + b)[..|a + b| - 1] == a + b[..|b| - 1];
      ApplyConcat(d, a, b[..|b| - 1]);
    }
  }

  lemma ApplyNone(d: Disk)
    ensures ApplyAll(d, []) == d
  {
  }

  lemma ApplyOne(d: Disk, w: Write)
    ensures ApplyAll(d, [w]) == Apply(d, w)
  {
    assert [w][..0] == [];
  }

  lemma ApplyLast(d: Disk, ws: seq<Write>, w: Write)
    ensures ApplyAll(d, ws + [w]) == Apply(ApplyAll(d, ws), w)
  {
    assert (ws + [w])[..|ws|] == ws;
  }

  lemma ApplyFirst(d: Disk, ws: seq<Write>, k: nat)
    requires 0 < k <= |ws|
    ensures ApplyAll(d, ws[..k]) == Apply(ApplyAll(d, ws[..k - 1]), ws[k - 1])
  {
    assert ws[..k][..k - 1] == ws[..k - 1];
  }

  // ---- The writes to the index file among others ----

  function IndexPart(ws: seq<Write>): seq<BTree.IndexWrite> {
    if ws == [] then []
    else IndexPart(ws[..|ws| - 1]) + if ws[|ws| - 1].PutIndex? then [ws[|ws| - 1].change] else []
  }

  /** The given changes of the index file as writes. */
  function IndexPuts(log: seq<BTree.IndexWrite>): (ws: seq<Write>)
    ensures |ws| == |log| && forall i :: 0 <= i < |ws| ==> ws[i] == PutIndex(log[i])
  {
    seq(|log|, i requires 0 <= i < |log| => PutIndex(log[i]))
  }

  lemma IndexPartOne(ws: seq<Write>, w: Write)
    ensures IndexPart(ws + [w]) == IndexPart(ws) + if w.PutIndex? then [w.change] else []
  {
    assert (ws + [w])[..|ws|] == ws;
  }

  lemma {:induction false} IndexPartPuts(ws: seq<Write>, log: seq<BTree.IndexWrite>)
    ensures IndexPart(ws + IndexPuts(log)) == IndexPart(ws) + log
    decreases |log|
  {
    hide IndexPuts;
    if log == [] {
      assert ws + IndexPuts(log) == ws;
    } else {
      var init, last := log[..|log| - 1], log[|log| - 1];
      IndexPartPuts(ws, init);
      IndexPartOne(ws + IndexPuts(init), PutIndex(last));
      assert ws + IndexPuts(log) == ws + IndexPuts(init) + [PutIndex(last)];
    }
  }

  // ---- Runs of writes ----

  /** The writes of consecutive pages from page `first` on. */
  function PageWrites(first: int32, pages: Store): (ws: seq<Write>)
    requires first + |pages| <= 0x8000_0000
    ensures |ws| == |pages|
    ensures forall i :: 0 <= i < |ws| ==> ws[i] == PutPage(first + i, pages[i])
  {
    seq(|pages|, i requires 0 <= i < |pages| => PutPage(first + i, pages[i]))
  }

  function JournalWrites(es: seq<DBJournalEntry>): (ws: seq<Write>)
    ensures |ws| == |es|
    ensures forall i :: 0 <= i < |ws| ==> ws[i] == AppendJournal(es[i])
  {
    seq(|es|, i requires 0 <= i < |es| => AppendJournal(es[i]))
  }

  lemma OverwriteOneMore(pages: Store, slot: nat, t: Store, k: nat)
    requires slot + |t| <= |pages| && 0 < k <= |t|
    ensures StorePage(Overwrite(pages, slot, t[..k - 1]), slot + k - 1, t[k - 1]) == Overwrite(pages, slot, t[..k])
  {
    hide Overwrite;
  }

  /** After any number of the page writes exactly the pages written so far are replaced. */
  lemma {:induction false} PagesWritten(d: Disk, first: int32, pages: Store, k: nat)
    requires 2 <= first && first + |pages| <= 0x8000_0000 && first - 2 + |pages| <= |d.pages| && k <= |pages|
    ensures ApplyAll(d, PageWrites(first, pages)[..k]) == d.(pages := Overwrite(d.pages, first - 2, pages[..k]))
  {
    hide PageWrites, Overwrite, StorePage;
    var ws := PageWrites(first, pages);
    if k == 0 {
      assert Overwrite(d.pages, first - 2, pages[..0]) == d.pages;
    } else {
      PagesWritten(d, first, pages, k - 1);
      assert ws[..k][..k - 1] == ws[..k - 1];
      OverwriteOneMore(d.pages, first - 2, pages, k);
    }
  }

  lemma AllPagesWritten(d: Disk, first: int32, pages: Store)
    requires 2 <= first && first + |pages| <= 0x8000_0000 && first - 2 + |pages| <= |d.pages|
    ensures ApplyAll(d, PageWrites(first, pages)) == d.(pages := Overwrite(d.pages, first - 2, pages))
  {
    hide PageWrites, Overwrite, ApplyAll;
    PagesWritten(d, first, pages, |pages|);
    assert PageWrites(first, pages)[..|pages|] == PageWrites(first, pages) && pages[..|pages|] == pages;
  }

  /** Writing pages just past the end of the file makes it grow page by page. */
  lemma {:induction false} PagesAppended(d: Disk, first: int32, pages: Store, k: nat)
    requires first == |d.pages| + 2 && first + |pages| <= 0x8000_0000 && k <= |pages|
    ensures ApplyAll(d, PageWrites(first, pages)[..k]) == d.(pages := d.pages + pages[..k])
  {
    hide PageWrites, Overwrite, StorePage;
    var ws := PageWrites(first, pages);
    if k == 0 {
      assert d.pages + pages[..0] == d.pages;
    } else {
      PagesAppended(d, first, pages, k - 1);
      assert ws[..k][..k - 1] == ws[..k - 1];
      StoreBehind(d.pages, pages, k);
    }
  }

  lemma StoreBehind(pages: Store, more: Store, k: nat)
    requires 0 < k <= |more|
    ensures StorePage(pages + more[..k - 1], |pages| + k - 1, more[k - 1]) == pages + more[..k]
  {
  }

  lemma {:induction false} JournalAppended(d: Disk, es: seq<DBJournalEntry>, k: nat)
    requires d.journal.Some? && k <= |es|
    ensures ApplyAll(d, JournalWrites(es)[..k]) == d.(journal := Some(d.journal.value + es[..k]))
  {
    hide JournalWrites;
    var ws := JournalWrites(es);
    if k == 0 {
      assert d.journal.value + es[..0] == d.journal.value;
    } else {
      JournalAppended(d, es, k - 1);
      assert ws[..k][..k - 1] == ws[..k - 1];
      assert d.journal.value + es[..k - 1] + [es[k - 1]] == d.journal.value + es[..k];
    }
  }
}
