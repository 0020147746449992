/** Crashes inside a transaction: whatever prefix of its writes reached the disk, recovery gives the records after the
    operations that are in the journal. */
module Crash {
  import opened Words
  import opened DbTypes
  import opened Pages
  import opened Disk
  import opened Directories
  import opened Engine
  import opened Refinement
  import opened Journal
  import opened Recovery
  import Allocator
  import BTree
  import Leaf

  // ---- Journaled page writes ----

  /** Replaying the entries puts `images` into the slots from `slot` on, and touches nothing else. */
  ghost predicate ReplaysAs(es: seq<DBJournalEntry>, slot: nat, images: Store) {
    && Named(es) && |es| == |images|
    && (forall e :: e in es ==> Target(e).Some? && slot <= Target(e).value < slot + |images|)
    && (forall s :: slot <= s < slot + |images| ==> s in Touched(es))
    && (forall x: Store :: slot + |images| <= |x| ==> Redo(es, x) == Overwrite(x, slot, images))
  }

  lemma WriteEntriesReplay(op: byte, first: int32, id: int32, data: bytes, n: nat)
    requires op in {JO_ADD, JO_UPDATE} && 2 <= first && first + n <= 0x8000_0000
    ensures ReplaysAs(WriteEntries(op, first, id, data, n), first - 2, Images(id, data, n))
  {
    hide WriteEntry, Overwrite, Redo, Target, Appends, PageOf;
    var es, images := WriteEntries(op, first, id, data, n), Images(id, data, n);
    forall i | 0 <= i < n
      ensures Target(es[i]) == Some(first - 2 + i) && !Appends(es[i]) && first - 2 + i in Touched(es)
    {
      ImageAgrees(op, first, id, data, i);
      TargetNamed(es[i]);
      assert es[i] in es;
    }
    forall s | first - 2 <= s < first - 2 + n ensures s in Touched(es) {
      assert Target(es[s - (first - 2)]) == Some(s);
    }
    forall x: Store | first - 2 + n <= |x| ensures Redo(es, x) == Overwrite(x, first - 2, images) {
      RedoWriteEntries(op, first, id, data, n, n, x);
      assert es[..n] == es && images[..n] == images;
    }
  }

  lemma EraseEntriesReplay(first: int32, id: int32, n: nat)
    requires 2 <= first && first + n <= 0x8000_0000
    ensures ReplaysAs(EraseEntries(first, id, n), first - 2, Empties(n))
  {
    hide EraseEntry, Overwrite, Redo, Target, Appends, PageOf;
    var es, images := EraseEntries(first, id, n), Empties(n);
    forall i | 0 <= i < n
      ensures Target(es[i]) == Some(first - 2 + i) && !Appends(es[i]) && first - 2 + i in Touched(es)
    {
      EraseAgrees(first, id, i);
      TargetNamed(es[i]);
      assert es[i] in es;
    }
    forall s | first - 2 <= s < first - 2 + n ensures s in Touched(es) {
      assert Target(es[s - (first - 2)]) == Some(s);
    }
    forall x: Store | first - 2 + n <= |x| ensures Redo(es, x) == Overwrite(x, first - 2, images) {
      RedoEraseEntries(first, id, n, n, x);
      assert es[..n] == es && images[..n] == images;
    }
  }

  lemma TargetNamed(e: DBJournalEntry)
    requires Target(e).Some?
    ensures !Appends(e)
  {
  }

  /** The journal is replayable and replaying it over the pages changes nothing: so it is between operations. */
  predicate Settled(es: seq<DBJournalEntry>, pages: Store) {
    Named(es) && InFile(es, |pages|) && Redo(es, pages) == pages
  }

  lemma SettledNamed(es: seq<DBJournalEntry>, pages: Store)
    requires Settled(es, pages)
    ensures Named(es) && Redo(es, pages) == pages
  {
  }

  lemma ReplaysLength(es: seq<DBJournalEntry>, slot: nat, images: Store)
    requires ReplaysAs(es, slot, images)
    ensures Named(es) && |es| == |images|
  {
  }

  /** Replaying the journal over pages of which only some have been written gives all of them. */
  lemma RedoCompletes(before: seq<DBJournalEntry>, es: seq<DBJournalEntry>, pages: Store, slot: nat, images: Store,
    i: nat)
    requires Settled(before, pages) && ReplaysAs(es, slot, images) && slot + |images| <= |pages| && i <= |images|
    ensures Redo(before + es, Overwrite(pages, slot, images[..i])) == Overwrite(pages, slot, images)
  {
    hide Redo, Overwrite, Target, Appends;
    var x := Overwrite(pages, slot, images[..i]);
    assert forall e :: e in es ==> e in before + es;
    assert Touched(es) <= Touched(before + es);
    ReplayConverges(before + es, x, pages);
    RedoConcat(before, es, pages);
  }

  lemma SettledAfter(before: seq<DBJournalEntry>, es: seq<DBJournalEntry>, pages: Store, slot: nat, images: Store)
    requires Settled(before, pages) && ReplaysAs(es, slot, images) && slot + |images| <= |pages|
    ensures Settled(before + es, Overwrite(pages, slot, images))
  {
    hide Redo, Overwrite, Target, Appends;
    RedoCompletes(before, es, pages, slot, images, |images|);
    assert images[..|images|] == images;
  }

  lemma SettledGrown(es: seq<DBJournalEntry>, pages: Store, k: nat)
    requires Settled(es, pages)
    ensures Settled(es, pages + Empties(k))
  {
    hide Redo, Target, Appends;
    RedoExtended(es, pages, Empties(k));
  }

  /** What is on disk after the first `k` of the writes that journal and then write some pages. */
  lemma RecordPrefix(d: Disk, es: seq<DBJournalEntry>, first: int32, images: Store, k: nat)
    requires d.journal.Some? && |es| == |images|
    requires 2 <= first && first - 2 + |images| <= |d.pages| <= Allocator.MAX_PAGES && k <= 2 * |images|
    ensures var n := |images|;
      var m, i := if k < n then k else n, if k < n then 0 else k - n;
      ApplyAll(d, (JournalWrites(es) + PageWrites(first, images))[..k])
        == d.(journal := Some(d.journal.value + es[..m]), pages := Overwrite(d.pages, first - 2, images[..i]))
  {
    hide JournalWrites, PageWrites, Overwrite, ApplyAll;
    var jw, pw, n := JournalWrites(es), PageWrites(first, images), |images|;
    if k < n {
      assert (jw + pw)[..k] == jw[..k];
      JournalAppended(d, es, k);
      OverwriteNothing(d.pages, first - 2, images);
    } else {
      assert (jw + pw)[..k] == jw + pw[..k - n];
      assert jw[..n] == jw && es[..n] == es;
      ApplyConcat(d, jw, pw[..k - n]);
      JournalAppended(d, es, n);
      PagesWritten(d.(journal := Some(d.journal.value + es)), first, images, k - n);
    }
  }

  lemma JournalPrefix(before: seq<DBJournalEntry>, es: seq<DBJournalEntry>, slot: nat, images: Store, pages: Store,
    m: nat)
    requires Settled(before, pages) && ReplaysAs(es, slot, images) && slot + |images| <= |pages| && m <= |es|
    ensures Named(before + es[..m]) && InFile(before + es[..m], |pages|)
  {
    hide Appends, Target, Redo, Overwrite;
    assert forall e :: e in es[..m] ==> e in es;
  }

  /** Only the journal and pages of `d` have changed, the journal by the first `m` of the entries. */
  predicate Progressed(d: Disk, es: seq<DBJournalEntry>, m: nat, d': Disk) {
    && d.journal.Some? && m <= |es| && |d'.pages| == |d.pages|
    && d' == d.(journal := Some(d.journal.value + es[..m]), pages := d'.pages)
  }

  /** Recovery from such a disk: before the first entry nothing has happened, after the last everything has. */
  lemma RecordCrash(d: Disk, es: seq<DBJournalEntry>, first: int32, images: Store, k: nat, d': Disk, m: nat)
    requires d.journal.Some? && Settled(d.journal.value, d.pages)
    requires 2 <= first && first - 2 + |images| <= |d.pages| <= Allocator.MAX_PAGES && k <= 2 * |images|
    requires ReplaysAs(es, first - 2, images)
    requires d' == ApplyAll(d, (JournalWrites(es) + PageWrites(first, images))[..k])
    requires m == if k < |images| then k else |images|
    ensures Progressed(d, es, m, d') && Named(d'.journal.value) && InFile(d'.journal.value, |d'.pages|)
    ensures m == 0 ==> Redone(d') == d.pages
    ensures m == |images| ==> Redone(d') == Overwrite(d.pages, first - 2, images)
  {
    hide JournalWrites, PageWrites, Redo, ApplyAll, Overwrite, Named, InFile, Settled, ReplaysAs;
    ReplaysLength(es, first - 2, images);
    SettledNamed(d.journal.value, d.pages);
    RecordPrefix(d, es, first, images, k);
    var i := if k < |images| then 0 else k - |images|;
    JournalPrefix(d.journal.value, es, first - 2, images, d.pages, m);
    if m == 0 {
      OverwriteNothing(d.pages, first - 2, images);
      assert d.journal.value + es[..0] == d.journal.value;
      assert i == 0;
    }
    if m == |images| {
      assert es[..m] == es;
      RedoCompletes(d.journal.value, es, d.pages, first - 2, images, i);
    }
  }

  // ---- Before and after the journaled writes ----

  /** What is on disk after some of the writes of an allocation: the file grown by some of its pages. */
  lemma AllocationPrefix(f: DBFreeList, d: Disk, n: uint16, k: nat) returns (e: nat, g: DBFreeList)
    requires Allocator.Bounded(f) && n >= 1 && |d.pages| + n <= Allocator.MAX_PAGES
    requires k <= |Allocator.Allocate(f, d.pages, n).writes|
    ensures e <= n
      && ApplyAll(d, Allocator.Allocate(f, d.pages, n).writes[..k]) == d.(free := g, pages := d.pages + Empties(e))
  {
    hide Allocator.Take, Allocator.Refilled, PageWrites, ApplyAll;
    var a := Allocator.Allocate(f, d.pages, n);
    assert d.pages + Empties(0) == d.pages;
    if Allocator.Take(f, n).Some? {
      e, g := FreePrefix(d, a.writes, k);
    } else if f.count >= n && f.len == 0 {
      var r := Allocator.Refilled(d.pages);
      if Allocator.Take(r, n).Some? {
        e, g := FreePrefix(d, a.writes, k);
      } else if k == 0 {
        e, g := FreePrefix(d, [], 0);
        assert a.writes[..0] == [];
      } else {
        ApplyOne(d, PutFree(r));
        ApplyConcat(d, [PutFree(r)], Allocator.Append(d.pages, n)[..k - 1]);
        assert a.writes[..k] == [PutFree(r)] + Allocator.Append(d.pages, n)[..k - 1];
        PagesAppended(d.(free := r), |d.pages| + 2, Empties(n), k - 1);
        assert Empties(n)[..k - 1] == Empties(k - 1);
        e, g := k - 1, r;
      }
    } else {
      PagesAppended(d, |d.pages| + 2, Empties(n), k);
      assert Empties(n)[..k] == Empties(k);
      e, g := k, d.free;
    }
  }

  lemma {:induction false} FreePrefix(d: Disk, ws: seq<Write>, k: nat) returns (e: nat, g: DBFreeList)
    requires k <= |ws| && forall w :: w in ws ==> w.PutFree?
    ensures e == 0 && ApplyAll(d, ws[..k]) == d.(free := g, pages := d.pages + Empties(0))
  {
    e, g := 0, d.free;
    assert d.pages + Empties(0) == d.pages;
    if k > 0 {
      e, g := FreePrefix(d, ws, k - 1);
      assert ws[..k][..k - 1] == ws[..k - 1];
      g := ws[k - 1].free;
    }
  }

  /** Writes that touch neither the journal nor the data pages, nor remove the index. */
  predicate Afterwards(w: Write) {
    w.PutFree? || (w.PutIndex? && w.change.LeafWritten?)
  }

  lemma {:induction false} AfterwardsPrefix(d: Disk, ws: seq<Write>, k: nat)
    requires k <= |ws| && d.index.Ready? && forall w :: w in ws ==> Afterwards(w)
    ensures var d' := ApplyAll(d, ws[..k]);
      d' == d.(free := d'.free, index := d'.index) && d'.index.Ready?
  {
    if k > 0 {
      AfterwardsPrefix(d, ws, k - 1);
      assert ws[..k][..k - 1] == ws[..k - 1];
      assert ws[k - 1] in ws;
    }
  }

  // ---- The operations of a transaction ----

  datatype Change = Insert(data: bytes) | Replace(id: int32, data: bytes) | Erase(id: int32)

  /** What the operation demands: the right size of data, and for an addition an id, a place in the index and a file
      that can grow. */
  predicate Ready(s: State, c: Change)
    requires Coherent(s)
  {
    match c
    case Insert(data) => |data| == s.mem.header.recordSize && Room(s) && |Entries(s.disk)| < MAX_RECORDS
    case Replace(_, data) => |data| == s.mem.header.recordSize
    case Erase(_) => true
  }

  function Run(s: State, c: Change): Outcome
    requires Coherent(s) && Ready(s, c)
  {
    match c
    case Insert(data) => Add(s, data)
    case Replace(id, data) => Update(s, id, data)
    case Erase(id) => Delete(s, id)
  }

  predicate SettledDisk(d: Disk) {
    d.journal.Some? && Settled(d.journal.value, d.pages)
  }

  /** Inside a transaction, between operations. */
  predicate InTransaction(s: State) {
    Full(s) && s.mem.journalOpen && s.disk.header == s.mem.header && SettledDisk(s.disk)
  }

  /** The operation journals something: it is an addition, or its record exists. */
  predicate Journals(s: State, c: Change)
    requires Coherent(s)
  {
    c.Insert? || c.id in Dir(s.disk)
  }

  /** A disk left by a crash in an operation that journals `n` entries: `m` of them are there, the file has grown by
      some pages, and what recovery would replay is known when none or all of the entries are there. */
  predicate CrashedAt(before: Disk, after: Disk, n: nat, d: Disk, m: nat, grown: nat) {
    && before.journal.Some? && d.journal.Some? && |d.journal.value| == |before.journal.value| + m && m <= n
    && Named(d.journal.value) && InFile(d.journal.value, |d.pages|)
    && d.index.Ready? && d.leading == before.leading && d.header in {before.header, after.header}
    && grown <= n
    && (m == 0 ==> Redone(d) == before.pages + Empties(grown))
    && (m == n ==> Redone(d) == after.pages)
  }

  lemma NothingGrown(pages: Store)
    ensures pages + Empties(0) == pages
  {
  }

  /** A crash in the journaled page writes themselves. */
  lemma CrashInRecord(d: Disk, after: Disk, es: seq<DBJournalEntry>, first: int32, images: Store, k: nat, d': Disk)
    returns (m: nat)
    requires SettledDisk(d) && d.index.Ready? && |images| >= 1
    requires 2 <= first && first - 2 + |images| <= |d.pages| <= Allocator.MAX_PAGES && k <= 2 * |images|
    requires ReplaysAs(es, first - 2, images)
    requires d' == ApplyAll(d, (JournalWrites(es) + PageWrites(first, images))[..k])
    requires after.pages == Overwrite(d.pages, first - 2, images)
    ensures CrashedAt(d, after, |images|, d', m, 0) && d'.header == d.header
      && m == if k < |images| then k else |images|
  {
    hide JournalWrites, PageWrites, Redo, ApplyAll, Overwrite, Named, InFile, Settled, ReplaysAs;
    ReplaysLength(es, first - 2, images);
    m := if k < |images| then k else |images|;
    RecordCrash(d, es, first, images, k, d', m);
    NothingGrown(d.pages);
  }

  lemma JournaledIn(s: State)
    requires InTransaction(s)
    ensures Journaling(s.mem) && s.disk.journal.Some? && s.disk.index.Ready? && SettledDisk(s.disk)
    ensures Coherent(s) && Indexed(s.disk) && |s.disk.pages| <= Allocator.MAX_PAGES == 0x7FFF_FFFD
  {
  }

  lemma UpdateWrites(s: State, id: int32, data: bytes)
    requires InTransaction(s) && id in Dir(s.disk)
    ensures var n, slot, o := PagesPer(s), Dir(s.disk)[id], Update(s, id, data);
      && 0 <= slot && slot + n <= |s.disk.pages| <= 0x7FFF_FFFD
      && o.writes
         == JournalWrites(WriteEntries(JO_UPDATE, slot + 2, id, data, n)) + PageWrites(slot + 2, Images(id, data, n))
      && |o.writes| == 2 * n
  {
    hide *;
    JournaledIn(s);
    UpdateIs(s, id, data);
    RecordWritesAre(s.mem, JO_UPDATE, Dir(s.disk)[id] + 2, id, data, PagesPer(s));
  }

  lemma RecordWritesAre(mem: Memory, op: byte, first: int32, id: int32, data: bytes, n: uint16)
    requires Journaling(mem) && first + n <= 0x8000_0000
    ensures RecordWrites(mem, op, first, id, data, n)
         == JournalWrites(WriteEntries(op, first, id, data, n)) + PageWrites(first, Images(id, data, n))
    ensures |RecordWrites(mem, op, first, id, data, n)| == 2 * n
  {
    hide WriteEntries, PageWrites, JournalWrites, Images;
  }

  lemma EraseWritesAre(mem: Memory, first: int32, id: int32, n: uint16)
    requires Journaling(mem) && first + n <= 0x8000_0000
    ensures EraseWrites(mem, first, id, n) == JournalWrites(EraseEntries(first, id, n)) + PageWrites(first, Empties(n))
  {
    hide EraseEntries, PageWrites, JournalWrites, Empties;
  }

  lemma UpdatePages(s: State, id: int32, data: bytes)
    requires InTransaction(s) && id in Dir(s.disk)
    ensures var n, slot, after := PagesPer(s), Dir(s.disk)[id], After(s, Update(s, id, data)).disk;
      && 0 <= slot && slot + n <= |s.disk.pages|
      && after.pages == Overwrite(s.disk.pages, slot, Images(id, data, n))
  {
    hide ApplyAll, WriteEntries, Images, Overwrite, Runs, Owned, Count, Settled, IdsBelow, Update, Singles,
      DirectoryOf;
    UpdateEffect(s, id, data);
  }

  lemma UpdateCrash(s: State, id: int32, data: bytes, k: nat) returns (m: nat)
    requires InTransaction(s) && id in Dir(s.disk)
    requires k <= |Update(s, id, data).writes|
    ensures var d := ApplyAll(s.disk, Update(s, id, data).writes[..k]);
      && CrashedAt(s.disk, After(s, Update(s, id, data)).disk, PagesPer(s), d, m, 0) && d.header == s.disk.header
    ensures m == if k < PagesPer(s) then k else PagesPer(s)
  {
    hide *;
    JournaledIn(s);
    UpdateWrites(s, id, data);
    UpdatePages(s, id, data);
    var n, slot := PagesPer(s), Dir(s.disk)[id];
    var es, images := WriteEntries(JO_UPDATE, slot + 2, id, data, n), Images(id, data, n);
    WriteEntriesReplay(JO_UPDATE, slot + 2, id, data, n);
    m := CrashInRecord(s.disk, After(s, Update(s, id, data)).disk, es, slot + 2, images, k,
                       ApplyAll(s.disk, Update(s, id, data).writes[..k]));
  }

  /** A crash after the record's pages are written, in the index, free-list and header writes. */
  lemma CrashInTail(before: Disk, after: Disk, n: nat, d: Disk, m: nat, grown: nat, ws: seq<Write>, t: nat)
    requires CrashedAt(before, after, n, d, m, grown) && d.header == before.header
    requires t <= |ws| + 1 && forall w :: w in ws ==> Afterwards(w)
    ensures var d' := ApplyAll(d, (ws + [PutHeader(after.header)])[..t]);
      CrashedAt(before, after, n, d', m, grown) && d'.header == if t == |ws| + 1 then after.header else before.header
  {
    hide ApplyAll, Redo, Named, InFile, Afterwards;
    if t <= |ws| {
      assert (ws + [PutHeader(after.header)])[..t] == ws[..t];
      AfterwardsPrefix(d, ws, t);
    } else {
      assert (ws + [PutHeader(after.header)])[..t] == ws + [PutHeader(after.header)];
      ApplyLast(d, ws, PutHeader(after.header));
      AfterwardsPrefix(d, ws, |ws|);
      assert ws[..|ws|] == ws;
    }
  }

  /** The index and free-list writes of DeleteRecord. */
  function EraseTail(s: State, id: int32): seq<Write>
    requires Coherent(s) && id in Dir(s.disk)
  {
    RunBelow(s, id);
    Remove(Entries(s.disk), id);
    EntryCount(s);
    IndexWrites(s.disk, Leaf.Deleted(Entries(s.disk), id).value)
      + [PutFree(Allocator.Release(s.mem.free, Dir(s.disk)[id] + 2, PagesPer(s)))]
  }

  lemma DeleteWrites(s: State, id: int32)
    requires InTransaction(s) && id in Dir(s.disk)
    ensures var n, slot, o := PagesPer(s), Dir(s.disk)[id], Delete(s, id);
      && 0 <= slot && slot + n <= |s.disk.pages| <= 0x7FFF_FFFD
      && (forall w :: w in EraseTail(s, id) ==> Afterwards(w))
      && o.writes == JournalWrites(EraseEntries(slot + 2, id, n)) + PageWrites(slot + 2, Empties(n))
                      + (EraseTail(s, id) + [PutHeader(o.mem.header)])
  {
    hide *;
    JournaledIn(s);
    DeleteIs(s, id);
    EraseWritesAre(s.mem, Dir(s.disk)[id] + 2, id, PagesPer(s));
    EraseTailIs(s, id);
    var f := Allocator.Release(s.mem.free, Dir(s.disk)[id] + 2, PagesPer(s));
    var es := Leaf.Deleted(Entries(s.disk), id).value;
    var ew, iw, h := EraseWrites(s.mem, Dir(s.disk)[id] + 2, id, PagesPer(s)), IndexWrites(s.disk, es),
      Delete(s, id).mem.header;
    assert ew + iw + [PutFree(f)] + [PutHeader(h)] == ew + (iw + [PutFree(f)] + [PutHeader(h)]);
  }

  lemma EraseTailIs(s: State, id: int32)
    requires Coherent(s) && id in Dir(s.disk)
    ensures var es := Leaf.Deleted(Entries(s.disk), id);
      && s.disk.index.Ready? && s.mem.free.len <= DB_MAX_FREE_PAGES && Allocator.Bounded(s.mem.free)
      && es.Some? && |es.value| <= 60 && 0 <= Dir(s.disk)[id] && Dir(s.disk)[id] + 2 < 0x8000_0000
      && EraseTail(s, id) == IndexWrites(s.disk, es.value)
                             + [PutFree(Allocator.Release(s.mem.free, Dir(s.disk)[id] + 2, PagesPer(s)))]
    ensures forall w :: w in EraseTail(s, id) ==> Afterwards(w)
  {
    hide Runs, Leaf.Deleted, Allocator.Release, Allocator.Sound, Singles, DirectoryOf, Operable;
    RunBelow(s, id);
    Remove(Entries(s.disk), id);
    EntryCount(s);
  }

  lemma DeletePages(s: State, id: int32)
    requires InTransaction(s) && id in Dir(s.disk)
    ensures var n, slot, after := PagesPer(s), Dir(s.disk)[id], After(s, Delete(s, id)).disk;
      && 0 <= slot && slot + n <= |s.disk.pages|
      && after.pages == Overwrite(s.disk.pages, slot, Empties(n)) && after.header == Delete(s, id).mem.header
  {
    hide ApplyAll, EraseEntries, Empties, Overwrite, Runs, Owned, Count, Settled, IdsBelow, Leaf.Deleted, Delete;
    DeleteEffect(s, id);
  }

  lemma DeleteCrash(s: State, id: int32, k: nat) returns (m: nat)
    requires InTransaction(s) && id in Dir(s.disk)
    requires k <= |Delete(s, id).writes|
    ensures var d := ApplyAll(s.disk, Delete(s, id).writes[..k]);
      CrashedAt(s.disk, After(s, Delete(s, id)).disk, PagesPer(s), d, m, 0)
    ensures m == if k < PagesPer(s) then k else PagesPer(s)
  {
    hide *;
    JournaledIn(s);
    DeleteWrites(s, id);
    DeletePages(s, id);
    var n, slot := PagesPer(s), Dir(s.disk)[id];
    var es, images := EraseEntries(slot + 2, id, n), Empties(n);
    var jp := JournalWrites(es) + PageWrites(slot + 2, images);
    var after := After(s, Delete(s, id)).disk;
    var writes, ws := Delete(s, id).writes, EraseTail(s, id);
    EraseEntriesReplay(slot + 2, id, n);
    if k <= 2 * n {
      assert writes[..k] == jp[..k];
      m := CrashInRecord(s.disk, after, es, slot + 2, images, k, ApplyAll(s.disk, jp[..k]));
    } else {
      var t := k - 2 * n;
      assert writes[..k] == jp + (ws + [PutHeader(after.header)])[..t];
      assert jp[..2 * n] == jp;
      ApplyConcat(s.disk, jp, (ws + [PutHeader(after.header)])[..t]);
      m := CrashInRecord(s.disk, after, es, slot + 2, images, 2 * n, ApplyAll(s.disk, jp));
      CrashInTail(s.disk, after, n, ApplyAll(s.disk, jp), m, 0, ws, t);
    }
  }

  lemma AddShape(s: State, data: bytes)
    requires InTransaction(s) && Room(s) && |Entries(s.disk)| < MAX_RECORDS
    ensures var n, o, a := PagesPer(s), Add(s, data), Allocator.Allocate(s.mem.free, s.disk.pages, PagesPer(s));
      && 2 <= a.first && a.first - 2 + n <= |s.disk.pages| + a.grown <= 0x7FFF_FFFD && a.grown <= n
      && ApplyAll(s.disk, a.writes) == s.disk.(pages := s.disk.pages + Empties(a.grown), free := a.free)
      && (exists ws :: (forall w :: w in ws ==> Afterwards(w)) &&
            o.writes == a.writes
                        + (JournalWrites(WriteEntries(JO_ADD, a.first, s.mem.header.nextRecordId, data, n))
                           + PageWrites(a.first, Images(s.mem.header.nextRecordId, data, n)))
                        + (ws + [PutHeader(After(s, o).disk.header)]))
      && After(s, o).disk.pages
           == Overwrite(s.disk.pages + Empties(a.grown), a.first - 2, Images(s.mem.header.nextRecordId, data, n))
  {
    hide ApplyAll, WriteEntries, PageWrites, JournalWrites, Images, Overwrite, Runs, Owned, Count, Settled,
      Allocator.Allocate, Allocator.Sound, Leaf.Inserted, Empties, IdsBelow;
    AllocatedBelow(s);
    GrantedRange(s);
    Allocator.AllocateWrites(s.mem.free, s.disk, PagesPer(s));
    AddEffect(s, data);
    AddSucceeds(s, data);
    var n, o, a := PagesPer(s), Add(s, data), Allocator.Allocate(s.mem.free, s.disk.pages, PagesPer(s));
    var id := s.mem.header.nextRecordId;
    var ws := IndexWrites(s.disk, Leaf.Inserted(Entries(s.disk), id, a.first).value);
    assert forall w :: w in ws ==> Afterwards(w);
    assert o.writes
      == a.writes
        + (JournalWrites(WriteEntries(JO_ADD, a.first, id, data, n)) + PageWrites(a.first, Images(id, data, n)))
                       + (ws + [PutHeader(After(s, o).disk.header)]);
  }

  lemma AddSucceeds(s: State, data: bytes)
    requires Core(s) && Room(s) && |Entries(s.disk)| < MAX_RECORDS
    ensures Add(s, data).ok
  {
    hide ApplyAll, RecordWrites, Runs, Allocator.Allocate, Allocator.Sound, Leaf.Inserted, DirectoryOf, Singles;
    AllocatedBelow(s);
    Enter(Entries(s.disk), s.mem.header.nextRecordId, Allocator.Allocate(s.mem.free, s.disk.pages, PagesPer(s)).first);
  }

  /** Pages the file has grown by before the entries do not change what recovery finds. */
  lemma CrashedGrown(before: Disk, d1: Disk, after: Disk, n: nat, d: Disk, m: nat, grown: nat)
    requires CrashedAt(d1, after, n, d, m, 0) && grown <= n
    requires d1 == before.(free := d1.free, pages := before.pages + Empties(grown))
    ensures CrashedAt(before, after, n, d, m, grown)
  {
    NothingGrown(d1.pages);
  }

  lemma CrashInAllocation(before: Disk, after: Disk, n: nat, f: DBFreeList, e: nat)
    requires SettledDisk(before) && before.index.Ready? && 1 <= n && e <= n
    ensures CrashedAt(before, after, n, before.(free := f, pages := before.pages + Empties(e)), 0, e)
  {
    hide Redo, Named, InFile;
    SettledGrown(before.journal.value, before.pages, e);
  }

  lemma CanAllocate(s: State)
    requires Coherent(s) && Room(s)
    ensures Allocator.Bounded(s.mem.free) && |s.disk.pages| + PagesPer(s) <= Allocator.MAX_PAGES
  {
  }

  lemma AddAllocationIs(s: State)
    requires Coherent(s) && Room(s)
    ensures Allocator.Bounded(s.mem.free) && |s.disk.pages| + PagesPer(s) <= Allocator.MAX_PAGES
    ensures AddAllocation(s) == Allocator.Allocate(s.mem.free, s.disk.pages, PagesPer(s))
  {
  }

  lemma AddCrash(s: State, data: bytes, k: nat) returns (m: nat, grown: nat)
    requires InTransaction(s) && Room(s) && |Entries(s.disk)| < MAX_RECORDS
    requires k <= |Add(s, data).writes|
    ensures var d, after := ApplyAll(s.disk, Add(s, data).writes[..k]), After(s, Add(s, data)).disk;
      && CrashedAt(s.disk, after, PagesPer(s), d, m, grown)
      && d.header == (if k == |Add(s, data).writes| then after.header else s.disk.header)
    ensures var a, n := |AddAllocation(s).writes|, PagesPer(s);
      m == if k <= a then 0 else if k < a + n then k - a else n
  {
    hide *;
    JournaledIn(s);
    CanAllocate(s);
    AddShape(s, data);
    var n, a := PagesPer(s), Allocator.Allocate(s.mem.free, s.disk.pages, PagesPer(s));
    AddAllocationIs(s);
    var es, images := WriteEntries(JO_ADD, a.first, s.mem.header.nextRecordId, data, n),
      Images(s.mem.header.nextRecordId, data, n);
    var jp := JournalWrites(es) + PageWrites(a.first, images);
    var after, writes := After(s, Add(s, data)).disk, Add(s, data).writes;
    var ws :| (forall w :: w in ws ==> Afterwards(w)) && writes == a.writes + jp + (ws + [PutHeader(after.header)]);
    var d1 := ApplyAll(s.disk, a.writes);
    if k <= |a.writes| {
      assert writes[..k] == a.writes[..k];
      var e, g := AllocationPrefix(s.mem.free, s.disk, n, k);
      CrashInAllocation(s.disk, after, n, g, e);
      m, grown := 0, e;
    } else {
      grown := a.grown;
      SettledAllocated(s.disk, d1, a.grown);
      WriteEntriesReplay(JO_ADD, a.first, s.mem.header.nextRecordId, data, n);
      if k <= |a.writes| + 2 * n {
        var t := k - |a.writes|;
        assert writes[..k] == a.writes + jp[..t];
        ApplyConcat(s.disk, a.writes, jp[..t]);
        m := CrashInRecord(d1, after, es, a.first, images, t, ApplyAll(d1, jp[..t]));
        CrashedGrown(s.disk, d1, after, n, ApplyAll(d1, jp[..t]), m, a.grown);
      } else {
        var t := k - |a.writes| - 2 * n;
        assert writes[..k] == a.writes + (jp + (ws + [PutHeader(after.header)])[..t]);
        assert jp[..2 * n] == jp;
        ApplyConcat(s.disk, a.writes, jp + (ws + [PutHeader(after.header)])[..t]);
        ApplyConcat(d1, jp, (ws + [PutHeader(after.header)])[..t]);
        m := CrashInRecord(d1, after, es, a.first, images, 2 * n, ApplyAll(d1, jp));
        CrashedGrown(s.disk, d1, after, n, ApplyAll(d1, jp), m, a.grown);
        CrashInTail(s.disk, after, n, ApplyAll(d1, jp), m, a.grown, ws, t);
      }
    }
  }

  lemma SettledAllocated(d: Disk, d1: Disk, grown: nat)
    requires SettledDisk(d) && d1 == d.(free := d1.free, pages := d.pages + Empties(grown))
    ensures SettledDisk(d1)
  {
    SettledGrown(d.journal.value, d.pages, grown);
  }

  // ---- Recovery ----

  /** The pages of a database that has lost none are all that recovery needs. */
  lemma FullIsRebuildable(s: State, grown: nat)
    requires Full(s) && |s.disk.pages| + grown <= Allocator.MAX_PAGES
    ensures Rebuildable(s.disk.pages + Empties(grown), PagesPer(s), Dir(s.disk))
    ensures Records(s.disk.pages + Empties(grown), s.mem.header.recordSize, Dir(s.disk)) == Data(s)
  {
    hide Records, Runs, Owned, Count, DirectoryOf, Singles;
    Extend(s.disk.pages, s.mem.header.recordSize, Dir(s.disk), grown);
    ExtendedCounts(s.disk.pages, grown);
    DirectorySize(Entries(s.disk));
    EntryCount(s);
  }

  /** What recovery gives: a coherent database without lost pages, with exactly the records of `s`. */
  predicate RecoversTo(d: Disk, s: State)
    requires Coherent(s)
  {
    && (d.header.journalPending ==> d.journal.None? || Replayable(d))
    && Open(d).Some?
    && var r := Reopened(d);
    && Coherent(r) && NoneLost(r) && Data(r) == Data(s)
    && r.mem.header.nextRecordId == d.header.nextRecordId && r.disk.header == r.mem.header
    && !r.mem.header.journalPending
  }

  lemma RecoversWhen(d: Disk, s: State, grown: nat)
    requires Full(s) && |s.disk.pages| + grown <= Allocator.MAX_PAGES
    requires d.journal.Some? && Named(d.journal.value) && d.index != BTree.NoHeader
      && Redone(d) == s.disk.pages + Empties(grown)
    requires d.leading == 2 && d.header.journalPending && GoodHeader(d.header)
    requires d.header.recordSize == s.mem.header.recordSize
    ensures RecoversTo(d, s) && Dir(Reopened(d).disk) == Dir(s.disk) && Reopened(d).disk.pages == Redone(d)
    ensures Reopened(d).mem.header.recordSize == s.mem.header.recordSize
  {
    hide Redo, Records, Runs, Owned, Count, DirectoryOf, Singles, Named, Rebuildable, Replay, FreeAgrees;
    FullIsRebuildable(s, grown);
    assert |Redo(d.journal.value, d.pages)| == |s.disk.pages| + grown;
    RecoveryRebuilds(d, Dir(s.disk));
  }

  // ---- Whole operations ----

  lemma UpdateSettles(s: State, id: int32, data: bytes)
    requires InTransaction(s) && id in Dir(s.disk)
    ensures SettledDisk(After(s, Update(s, id, data)).disk)
    ensures |After(s, Update(s, id, data)).disk.journal.value| == |s.disk.journal.value| + PagesPer(s)
    ensures After(s, Update(s, id, data)).disk.header == s.disk.header
  {
    hide ApplyAll, WriteEntries, Images, Overwrite, Runs, Owned, Count, Settled, IdsBelow, ReplaysAs, FreeAgrees,
      Update;
    var n, slot := PagesPer(s), Dir(s.disk)[id];
    UpdateEffect(s, id, data);
    WriteEntriesReplay(JO_UPDATE, slot + 2, id, data, n);
    SettledAfter(s.disk.journal.value, WriteEntries(JO_UPDATE, slot + 2, id, data, n), s.disk.pages, slot,
      Images(id, data, n));
  }

  lemma DeleteSettles(s: State, id: int32)
    requires InTransaction(s) && id in Dir(s.disk)
    ensures SettledDisk(After(s, Delete(s, id)).disk)
    ensures |After(s, Delete(s, id)).disk.journal.value| == |s.disk.journal.value| + PagesPer(s)
    ensures After(s, Delete(s, id)).disk.header == Delete(s, id).mem.header
  {
    hide ApplyAll, EraseEntries, Empties, Overwrite, Runs, Owned, Count, Settled, IdsBelow, ReplaysAs, FreeAgrees,
      Delete, Leaf.Deleted;
    var n, slot := PagesPer(s), Dir(s.disk)[id];
    DeleteEffect(s, id);
    EraseEntriesReplay(slot + 2, id, n);
    SettledAfter(s.disk.journal.value, EraseEntries(slot + 2, id, n), s.disk.pages, slot, Empties(n));
  }

  lemma AddSettles(s: State, data: bytes)
    requires InTransaction(s) && Room(s) && |Entries(s.disk)| < MAX_RECORDS
    ensures SettledDisk(After(s, Add(s, data)).disk)
    ensures |After(s, Add(s, data)).disk.journal.value| == |s.disk.journal.value| + PagesPer(s)
    ensures After(s, Add(s, data)).disk.header == Add(s, data).mem.header
  {
    hide ApplyAll, WriteEntries, Images, Overwrite, Runs, Owned, Count, Settled, IdsBelow, ReplaysAs, FreeAgrees,
      Add, Empties, Allocator.Allocate, Leaf.Inserted;
    var n, id, a := PagesPer(s), s.mem.header.nextRecordId, AddAllocation(s);
    AddEffect(s, data);
    AddSucceeds(s, data);
    GrantedRange(s);
    WriteEntriesReplay(JO_ADD, a.first, id, data, n);
    SettledGrown(s.disk.journal.value, s.disk.pages, a.grown);
    SettledAfter(s.disk.journal.value, WriteEntries(JO_ADD, a.first, id, data, n), s.disk.pages + Empties(a.grown),
                 a.first - 2, Images(id, data, n));
  }

  lemma OutcomeMemory(s: State, c: Change)
    requires Coherent(s) && Ready(s, c)
    ensures var o := Run(s, c);
      o.mem.journalOpen == s.mem.journalOpen && o.mem.header.recordSize == s.mem.header.recordSize
    ensures !Journals(s, c) ==> Run(s, c) == Outcome(s.mem, [], false)
    ensures c.Replace? ==> Run(s, c).mem == s.mem
    ensures Run(s, c).mem.header.nextRecordId == s.mem.header.nextRecordId + if c.Insert? then 1 else 0
  {
    hide Coherent, Operable, RecordWrites, IndexWrites, EraseWrites, Leaf.Inserted, Leaf.Deleted, Allocator.Allocate,
      Allocator.Release;
    match c {
      case Insert(data) =>
      case Replace(id, data) => UpdateIs(s, id, data);
      case Erase(id) => DeleteIs(s, id);
    }
  }

  lemma FullOperation(s: State, c: Change)
    requires Full(s) && Ready(s, c)
    ensures Full(After(s, Run(s, c)))
  {
    hide ApplyAll, Add, Update, Delete, HeadersAgree, FreeAgrees, Indexed, Runs, IdsBelow, NoneLost;
    match c {
      case Insert(data) => AddKeepsFull(s, data);
      case Replace(id, data) => UpdateKeeps(s, id, data);
      case Erase(id) => DeleteKeepsFull(s, id);
    }
  }

  /** Every operation of a transaction ends in a state from which the next can start, with its entries in the
      journal. */
  lemma OperationKeeps(s: State, c: Change)
    requires InTransaction(s) && Ready(s, c)
    ensures var s' := After(s, Run(s, c));
      && InTransaction(s') && PagesPer(s') == PagesPer(s)
      && |s'.disk.journal.value| == |s.disk.journal.value| + (if Journals(s, c) then PagesPer(s) else 0)
      && (!Journals(s, c) ==> s' == s && Run(s, c).writes == [])
  {
    hide ApplyAll, Full, Settled, Add, Update, Delete, Coherent;
    JournaledIn(s);
    OutcomeMemory(s, c);
    FullOperation(s, c);
    ApplyNone(s.disk);
    if Journals(s, c) {
      match c {
        case Insert(data) => AddSettles(s, data);
        case Replace(id, data) => UpdateSettles(s, id, data);
        case Erase(id) => DeleteSettles(s, id);
      }
    }
  }
}
