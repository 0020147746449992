/** The redo journal: what replaying its entries does to the pages, and why replaying again changes nothing. */
module Journal {
  import opened Words
  import opened DbTypes
  import opened Pages
  import opened Disk
  import opened Engine
  import DbCodec

  // ---- Replay ----

  /** The page that an added or updated page is rebuilt as. */
  function PageOf(e: DBJournalEntry): DBPage {
    Page(e.recordId, e.data[0], 0, e.data[1..])
  }

  /** The slot an intact entry writes, when it names a page. */
  function Target(e: DBJournalEntry): Option<nat> {
    if DbCodec.Intact(e) && e.operation in {JO_UPDATE, JO_DELETE, JO_ADD} && e.pageNum >= 2 then Some(e.pageNum - 2)
    else None
  }

  /** An addition that names no page is appended at the end of the file. */
  predicate Appends(e: DBJournalEntry) {
    DbCodec.Intact(e) && e.operation == JO_ADD && e.pageNum < 2
  }

  /** The page write that replaying an entry makes, if any. */
  function RedoWrite(pages: Store, e: DBJournalEntry): (w: Option<(nat, DBPage)>) {
    if Target(e).Some? then Some((Target(e).value, if e.operation == JO_DELETE then EMPTY_PAGE else PageOf(e)))
    else if Appends(e) then Some((|pages|, PageOf(e)))
    else None
  }

  /** What replaying an entry writes, by its operation: 1 and 3 put the page back, 2 empties it. Entries with a wrong
      checksum, of another operation, or of operation 1 or 2 without a data page's number are passed over; an addition
      without one is appended. */
  lemma RedoExactly(pages: Store, e: DBJournalEntry)
    ensures RedoWrite(pages, e).None? <==>
      e.checksum != DbCodec.ComputeChecksum(e) || !(1 <= e.operation <= 3) || (e.operation <= 2 && e.pageNum < 2)
    ensures RedoWrite(pages, e).Some? ==>
      RedoWrite(pages, e).value
      == (if e.pageNum >= 2 then e.pageNum - 2 else |pages|,
          if e.operation == 2 then Page(0, 0, 0, seq(506, _ => 0)) else Page(e.recordId, e.data[0], 0, e.data[1..]))
  {
    hide DbCodec.ComputeChecksum;
    assert Zeros(506) == seq(506, _ => 0);
  }

  function RedoOne(pages: Store, e: DBJournalEntry): Store {
    match RedoWrite(pages, e)
    case None => pages
    case Some((s, p)) => StorePage(pages, s, p)
  }

  function Redo(es: seq<DBJournalEntry>, pages: Store): Store {
    if es == [] then pages else RedoOne(Redo(es[..|es| - 1], pages), es[|es| - 1])
  }

  lemma {:induction false} RedoConcat(a: seq<DBJournalEntry>, b: seq<DBJournalEntry>, pages: Store)
    ensures Redo(a + b, pages) == Redo(b, Redo(a, pages))
    decreases |b|
  {
    if b == [] {
      assert a + b == a;
    } else {
      assert (a + b)[..|a + b| - 1] == a + b[..|b| - 1];
      RedoConcat(a, b[..|b| - 1], pages);
    }
  }

  // ---- Convergence ----

  /** The slots that the entries write. */
  function Touched(es: seq<DBJournalEntry>): set<nat> {
    set e | e in es && Target(e).Some? :: Target(e).value
  }

  /** Every entry that writes names its page: all that the record operations emit. */
  predicate Named(es: seq<DBJournalEntry>) {
    forall e :: e in es ==> !Appends(e)
  }

  predicate InFile(es: seq<DBJournalEntry>, size: nat) {
    forall e :: e in es && Target(e).Some? ==> Target(e).value < size
  }

  predicate AgreeOutside(a: Store, b: Store, slots: set<nat>) {
    |a| == |b| && forall s :: 0 <= s < |a| && s !in slots ==> a[s] == b[s]
  }

  lemma SplitLast(es: seq<DBJournalEntry>)
    requires es != []
    ensures var init, e := es[..|es| - 1], es[|es| - 1];
      && (Named(es) ==> Named(init) && !Appends(e))
      && (forall size: nat :: InFile(es, size) ==> InFile(init, size) && (Target(e).Some? ==> Target(e).value < size))
      && Touched(es) == Touched(init) + (if Target(e).Some? then {Target(e).value} else {})
  {
    hide Target, Appends;
    var init, e := es[..|es| - 1], es[|es| - 1];
    assert es == init + [e];
    assert e in es && forall x :: x in init ==> x in es;
  }

  /** Replay wipes out differences in the slots it writes. */
  lemma {:induction false} RedoNarrows(es: seq<DBJournalEntry>, a: Store, b: Store, slots: set<nat>)
    requires Named(es) && AgreeOutside(a, b, slots)
    ensures AgreeOutside(Redo(es, a), Redo(es, b), slots - Touched(es))
  {
    hide Named, Touched, Target, Appends, AgreeOutside, StorePage, PageOf;
    if es == [] {
      assert slots - Touched([]) == slots by {
        TouchedNothing();
      }
    } else {
      var init, e := es[..|es| - 1], es[|es| - 1];
      SplitLast(es);
      RedoNarrows(init, a, b, slots);
      var x, y := Redo(init, a), Redo(init, b);
      if Target(e).Some? {
        StoreNarrows(x, y, slots - Touched(init), Target(e).value, RedoWrite(x, e).value.1);
        assert slots - Touched(es) == slots - Touched(init) - {Target(e).value};
      } else {
        assert slots - Touched(es) == slots - Touched(init);
      }
    }
  }

  lemma TouchedNothing()
    ensures Touched([]) == {}
  {
  }

  lemma StoreNarrows(a: Store, b: Store, slots: set<nat>, s: nat, p: DBPage)
    requires AgreeOutside(a, b, slots)
    ensures AgreeOutside(StorePage(a, s, p), StorePage(b, s, p), slots - {s})
  {
  }

  /** Replay from any two states that differ only in pages the journal writes gives the same pages. */
  lemma ReplayConverges(es: seq<DBJournalEntry>, a: Store, b: Store)
    requires Named(es) && AgreeOutside(a, b, Touched(es))
    ensures Redo(es, a) == Redo(es, b)
  {
    RedoNarrows(es, a, b, Touched(es));
    assert Touched(es) - Touched(es) == {};
  }

  /** An entry that names no page is appended anew by every replay: it is only for entries that name their pages that
      replaying again changes nothing. */
  lemma AppendsAgain(e: DBJournalEntry, pages: Store)
    requires Appends(e)
    ensures Redo([e], pages) == pages + [PageOf(e)] && Redo([e], Redo([e], pages)) == pages + [PageOf(e), PageOf(e)]
  {
    hide Redo, PageOf, Appends;
    AppendOne(e, pages);
    AppendOne(e, pages + [PageOf(e)]);
    assert pages + [PageOf(e)] + [PageOf(e)] == pages + [PageOf(e), PageOf(e)];
  }

  lemma AppendOne(e: DBJournalEntry, pages: Store)
    requires Appends(e)
    ensures Redo([e], pages) == pages + [PageOf(e)]
  {
    hide DbCodec.Intact, PageOf, StorePage;
    assert [e][..0] == [];
    StoreAppended(pages, PageOf(e));
  }

  lemma StoreAppended(pages: Store, p: DBPage)
    ensures StorePage(pages, |pages|, p) == pages + [p]
  {
  }

  lemma {:induction false} RedoTouches(es: seq<DBJournalEntry>, pages: Store)
    requires Named(es) && InFile(es, |pages|)
    ensures AgreeOutside(Redo(es, pages), pages, Touched(es))
  {
    hide Named, InFile, Touched, Target, Appends, PageOf;
    if es != [] {
      var init, e := es[..|es| - 1], es[|es| - 1];
      SplitLast(es);
      RedoTouches(init, pages);
    }
  }

  /** Replaying over the result of replaying any part of the journal, all of it included, changes nothing more. */
  lemma ReplayTwice(es: seq<DBJournalEntry>, k: nat, pages: Store)
    requires Named(es) && InFile(es, |pages|) && k <= |es|
    ensures Redo(es, Redo(es[..k], pages)) == Redo(es, pages)
  {
    assert forall x :: x in es[..k] ==> x in es;
    RedoTouches(es[..k], pages);
    assert Touched(es[..k]) <= Touched(es);
    ReplayConverges(es, Redo(es[..k], pages), pages);
  }

  /** Pages appended to the file beyond those the journal writes stay as they are. */
  lemma {:induction false} RedoExtended(es: seq<DBJournalEntry>, pages: Store, more: Store)
    requires Named(es) && InFile(es, |pages|)
    ensures Redo(es, pages + more) == Redo(es, pages) + more
  {
    hide Named, InFile, Touched, Target, Appends, PageOf, StorePage;
    if es != [] {
      var init, e := es[..|es| - 1], es[|es| - 1];
      SplitLast(es);
      RedoExtended(init, pages, more);
      RedoTouches(init, pages);
      if Target(e).Some? {
        StoreExtended(Redo(init, pages), more, Target(e).value, RedoWrite(pages, e).value.1);
      }
    }
  }

  lemma StoreExtended(pages: Store, more: Store, s: nat, p: DBPage)
    requires s < |pages|
    ensures StorePage(pages + more, s, p) == StorePage(pages, s, p) + more
  {
  }

  // ---- Journal and pages agree ----

  /** The page rebuilt from a record's journal entry is the page the operation writes, and an undamaged entry passes
      its check: the entry read back from its 518 bytes is the entry written. */
  lemma ImageAgrees(op: byte, first: int32, id: int32, data: bytes, i: nat)
    requires op in {JO_ADD, JO_UPDATE} && 2 <= first && first + i < 0x8000_0000
    ensures var e := WriteEntry(op, first, id, data, i);
      && DbCodec.DecodeJournal(DbCodec.JournalBytes(e)) == e && DbCodec.Intact(e)
      && e.operation == op && Target(e) == Some(first + i - 2) && PageOf(e) == Image(id, data, i)
  {
    hide DbCodec.DecodeJournal, DbCodec.JournalBytes, DbCodec.CoveredBytes, Chunk;
    var e := WriteEntry(op, first, id, data, i);
    DbCodec.JournalRoundTrip(e, DbCodec.JournalBytes(e));
    SealedIntact(JournalEntry(op, first + i, id, [StatusOf(i)] + Chunk(data, i), 0));
    assert ([StatusOf(i)] + Chunk(data, i))[1..] == Chunk(data, i);
  }

  lemma EraseAgrees(first: int32, id: int32, i: nat)
    requires 2 <= first && first + i < 0x8000_0000
    ensures var e := EraseEntry(first, id, i);
      && DbCodec.DecodeJournal(DbCodec.JournalBytes(e)) == e && DbCodec.Intact(e)
      && Target(e) == Some(first + i - 2) && RedoWrite([], e) == Some((first + i - 2, EMPTY_PAGE))
  {
    hide DbCodec.DecodeJournal, DbCodec.JournalBytes, DbCodec.CoveredBytes;
    var e := EraseEntry(first, id, i);
    DbCodec.JournalRoundTrip(e, DbCodec.JournalBytes(e));
    SealedIntact(JournalEntry(JO_DELETE, first + i, id, Zeros(507), 0));
  }

  lemma SealedIntact(e: DBJournalEntry)
    ensures DbCodec.Intact(DbCodec.Sealed(e))
  {
    hide DbCodec.CoveredBytes;
    SameCovered(e);
  }

  lemma SameCovered(e: DBJournalEntry)
    ensures DbCodec.CoveredBytes(DbCodec.Sealed(e)) == DbCodec.CoveredBytes(e)
  {
  }

  /** Replay skips an entry with damage of up to sixteen consecutive bits in its covered bytes. */
  lemma DamagedSkipped(pages: Store, e: DBJournalEntry, damaged: DBJournalEntry, from: nat)
    requires DbCodec.Intact(e) && damaged.checksum == e.checksum
    requires DbCodec.CoveredBytes(damaged) != DbCodec.CoveredBytes(e)
    requires var s, t := DbCodec.Crc.Bits(DbCodec.CoveredBytes(e)), DbCodec.Crc.Bits(DbCodec.CoveredBytes(damaged));
      forall i :: 0 <= i < 8 * 516 && !(from <= i < from + 16) ==> s[i] == t[i]
    ensures RedoOne(pages, damaged) == pages
  {
    hide DbCodec.CoveredBytes, DbCodec.ComputeChecksum;
    DbCodec.DamageDetected(e, damaged, from);
  }

  // ---- Replaying the entries of one operation ----

  lemma {:induction false} RedoWriteEntries(op: byte, first: int32, id: int32, data: bytes, n: nat, k: nat,
    pages: Store)
    requires op in {JO_ADD, JO_UPDATE} && 2 <= first && first + n <= 0x8000_0000 && first - 2 + n <= |pages| && k <= n
    ensures Redo(WriteEntries(op, first, id, data, n)[..k], pages)
      == Overwrite(pages, first - 2, Images(id, data, n)[..k])
  {
    hide WriteEntries, Images, Overwrite, StorePage, WriteEntry, Image, Target, PageOf, Appends, DbCodec.Intact;
    var es, images := WriteEntries(op, first, id, data, n), Images(id, data, n);
    if k == 0 {
      OverwriteNothing(pages, first - 2, images);
    } else {
      RedoWriteEntries(op, first, id, data, n, k - 1, pages);
      assert es[..k][..k - 1] == es[..k - 1];
      ImageAgrees(op, first, id, data, k - 1);
      OverwriteOneMore(pages, first - 2, images, k);
    }
  }

  lemma OverwriteNothing(pages: Store, slot: nat, t: Store)
    requires slot + |t| <= |pages|
    ensures Overwrite(pages, slot, t[..0]) == pages
  {
  }

  lemma {:induction false} RedoEraseEntries(first: int32, id: int32, n: nat, k: nat, pages: Store)
    requires 2 <= first && first + n <= 0x8000_0000 && first - 2 + n <= |pages| && k <= n
    ensures Redo(EraseEntries(first, id, n)[..k], pages) == Overwrite(pages, first - 2, Empties(n)[..k])
  {
    hide EraseEntries, Empties, Overwrite, StorePage, EraseEntry, Target, PageOf, Appends, DbCodec.Intact;
    var es, images := EraseEntries(first, id, n), Empties(n);
    if k == 0 {
      OverwriteNothing(pages, first - 2, images);
    } else {
      RedoEraseEntries(first, id, n, k - 1, pages);
      assert es[..k][..k - 1] == es[..k - 1];
      EraseAgrees(first, id, k - 1);
      OverwriteOneMore(pages, first - 2, images, k);
    }
  }
}
