/** The header page over whole runs: which of its fields an operation changes, and to what. */
module Headers {
  import opened Words
  import opened DbTypes
  import opened Pages
  import opened Disk
  import opened Engine
  import opened Maintenance
  import opened Compaction
  import opened Recovery
  import opened PlainMap
  import Allocator
  import BTree
  import opened Lookup
  import Strings
  import Leaf

  /** Two headers that differ in the count, the next id and the pending flag at most, and in the time of the last
      compaction as given. */
  predicate Follows(h: DBHeader, h': DBHeader, time: int32) {
    h' == h.(recordCount := h'.recordCount, nextRecordId := h'.nextRecordId, journalPending := h'.journalPending,
             lastCompacted := time)
  }

  /** When the header was last written by a compaction, if there was one. */
  function CompactedAt(op: Op, before: int32): int32 {
    if op.CompactOp? then op.now else before
  }

  /** The header that goes with a plain map, for a database whose other fields are those of `h`. */
  function HeaderOf(h: DBHeader, p: Plain, time: int32): DBHeader
    requires |p.records| < 0x8000_0000 && -0x8000_0000 <= p.next < 0x8000_0000
  {
    h.(recordCount := |p.records|, nextRecordId := p.next, lastCompacted := time, journalPending := !p.mode.Idle?)
  }

  lemma RepresentedHeader(s: State, p: Plain)
    requires Represents(s, p)
    ensures |p.records| <= 36 && s.disk.header == s.mem.header
    ensures s.mem.header == HeaderOf(s.mem.header, p, s.mem.header.lastCompacted)
  {
    hide Full, Data, FreeAgrees, Runs, Allocator.Sound;
    RepresentedFacts(s, p);
    FullHeader(s);
  }

  lemma FullHeader(s: State)
    requires Full(s)
    ensures HeadersAgree(s.mem, s.disk)
  {
    hide FreeAgrees, Runs, Owned, Indexed, Count, HeadersAgree;
  }

  /** Operations on records and on a whole file: the header they leave in memory. */
  lemma OutcomeFollows(s: State, data: bytes, id: int32, now: int32)
    requires Coherent(s)
    ensures Room(s) ==> Follows(s.mem.header, Add(s, data).mem.header, s.mem.header.lastCompacted)
    ensures Update(s, id, data).mem.header == s.mem.header
    ensures Follows(s.mem.header, Delete(s, id).mem.header, s.mem.header.lastCompacted)
    ensures |s.disk.pages| <= Allocator.MAX_PAGES
    ensures UpdateFree(s).mem.header == Rebuild(s).mem.header == s.mem.header
    ensures |CompactFrom(s.disk.pages, PagesPer(s), 0)| <= Allocator.MAX_PAGES ==>
      Follows(s.mem.header, Compact(s, now).mem.header, now)
    ensures Follows(s.mem.header, Begin(s.mem).mem.header, s.mem.header.lastCompacted)
    ensures Follows(s.mem.header, Commit(s.mem).mem.header, s.mem.header.lastCompacted)
  {
    hide Runs, FreeAgrees, HeadersAgree, Dir, RecordWrites, EraseWrites, IndexWrites, RebuildWrites, Allocator.Refilled,
      CompactFrom, PagesPer;
    DeleteIs(s, id);
    PartsOf(s);
  }

  lemma ReopenedFollows(s: State)
    requires s.disk.index.Ready? && Opens(Closed(s))
    ensures Follows(s.mem.header, Reopened(Closed(s)).mem.header, s.mem.header.lastCompacted)
  {
    hide Closed, Redone, RebuildWrites, RedoWrites, Allocator.Refilled, ActiveCount;
    CloseEffect(s);
    OpensIs(Closed(s));
  }

  lemma StepFollows(s: State, p: Plain, op: Op)
    requires Represents(s, p) && Allowed(p, op)
    ensures Coherent(s) && Enabled(s, op)
    ensures Follows(s.mem.header, Step(s, op).0.mem.header, CompactedAt(op, s.mem.header.lastCompacted))
  {
    hide Represents, Allowed, Coherent, Room, Add, Update, Delete, UpdateFree, Rebuild, Compact, CompactFrom, Begin,
      Commit, FindRecord, Reopened, Closed, Opens, PagesPer, BTree.FirstValue;
    StepRefines(s, p, op);
    ReadyIndex(s);
    var none: bytes := [];
    match op {
      case AddOp(data) => OutcomeFollows(s, data, 0, 0);
      case UpdateOp(id, data) => OutcomeFollows(s, data, id, 0);
      case DeleteOp(id) => OutcomeFollows(s, none, id, 0);
      case CompactOp(now) => OutcomeFollows(s, none, 0, now);
      case ReopenOp => ReopenedFollows(s);
      case _ => OutcomeFollows(s, none, 0, 0);
    }
  }

  lemma ReadyIndex(s: State)
    requires Coherent(s)
    ensures s.disk.index.Ready?
  {
    hide Runs, FreeAgrees, HeadersAgree;
  }

  /** After every operation the header is that of the plain map, in memory and on disk; a compaction leaves its time,
      and no other field changes. */
  lemma StepHeader(s: State, p: Plain, op: Op)
    requires Represents(s, p) && Allowed(p, op)
    ensures Coherent(s) && Enabled(s, op)
    ensures var s', p' := Step(s, op).0, PlainStep(p, op).0;
      && |p'.records| <= 36 && -0x8000_0000 <= p'.next < 0x8000_0000
      && s'.mem.header == s'.disk.header == HeaderOf(s.mem.header, p', CompactedAt(op, s.mem.header.lastCompacted))
  {
    hide Represents, Allowed, Coherent, Enabled, Step, PlainStep;
    StepRefines(s, p, op);
    StepFollows(s, p, op);
    var s', p' := Step(s, op).0, PlainStep(p, op).0;
    RepresentedFacts(s', p');
    RepresentedHeader(s', p');
  }

  /** The time of the last compaction in a run, if there was one. */
  function LastCompacted(ops: seq<Op>, before: int32): int32
    decreases |ops|
  {
    if ops == [] then before else LastCompacted(ops[1..], CompactedAt(ops[0], before))
  }

  lemma {:induction false} RunHeader(s: State, p: Plain, ops: seq<Op>)
    requires Represents(s, p) && AllAllowed(p, ops)
    ensures var s', p' := RunOps(s, p, ops).0, PlainRun(p, ops).0;
      && |p'.records| <= 36 && -0x8000_0000 <= p'.next < 0x8000_0000
      && s'.mem.header == s'.disk.header == HeaderOf(s.mem.header, p', LastCompacted(ops, s.mem.header.lastCompacted))
    decreases |ops|
  {
    hide Represents, Allowed, Coherent, Enabled, Step, PlainStep;
    if ops == [] {
      RepresentedFacts(s, p);
      RepresentedHeader(s, p);
    } else {
      StepRefines(s, p, ops[0]);
      StepHeader(s, p, ops[0]);
      RunHeader(Step(s, ops[0]).0, PlainStep(p, ops[0]).0, ops[1..]);
    }
  }

  /** After every run of operations on a newly created database each field of the header is known. */
  lemma WholeRunHeader(size: uint16, journal: Option<seq<DBJournalEntry>>, ops: seq<Op>)
    requires size > 0 && AllAllowed(Plain(size, map[], 1, 0, Idle), ops)
    ensures var d, p := Created(size, journal), Plain(size, map[], 1, 0, Idle);
      && !d.header.journalPending && Open(d).Some? && Represents(Reopened(d), p)
      && var (s, p') := (RunOps(Reopened(d), p, ops).0, PlainRun(p, ops).0);
      && |p'.records| <= 36 && -0x8000_0000 <= p'.next < 0x8000_0000
      && s.mem.header == s.disk.header
      == Header([86, 68, 66, 0], 1, 512, size, |p'.records|, p'.next, LastCompacted(ops, 0), !p'.mode.Idle?, 0,
                [0, 0, 0, 0, 0, 0, 0, 0], seq(15, _ => IndexInfo(Zeros(30), 0, 0)))
  {
    hide Represents, RunOps, PlainRun, AllAllowed, LastCompacted;
    CreateRepresents(size, journal);
    CreatedHeader(size, journal);
    RunHeader(Reopened(Created(size, journal)), Plain(size, map[], 1, 0, Idle), ops);
  }

  /** Every field of the header that CreateDatabase writes. */
  lemma CreatedHeader(size: uint16, journal: Option<seq<DBJournalEntry>>)
    ensures Created(size, journal).header
         == Header([86, 68, 66, 0], 1, 512, size, 0, 1, 0, false, 0, [0, 0, 0, 0, 0, 0, 0, 0],
                   seq(15, _ => IndexInfo(Zeros(30), 0, 0)))
    ensures Created(size, journal).free == FreeList(0, 0, seq(127, _ => 0))
  {
    hide BTree.EmptyLeaf;
    assert Zeros(8) == [0, 0, 0, 0, 0, 0, 0, 0];
  }

  /** A new database lists no index: every search by string fails for want of one. */
  lemma NewHasNoIndex(size: uint16, journal: Option<seq<DBJournalEntry>>, field: bytes)
    ensures var h := Created(size, journal).header;
      && h.indexCount <= DB_MAX_INDEXES && NamesTerminated(h.indexes) && HeaderIndex(h, field).None?
      && forall k: nat :: !FirstNamed(h, field, k)
  {
    hide BTree.EmptyLeaf, Strings.Text;
    CreatedHeader(size, journal);
    assert Zeros(30)[0] == 0;
  }

  /** A new database has no page and an empty leaf in its index. */
  lemma CreatedLeaf(size: uint16, journal: Option<seq<DBJournalEntry>>)
    ensures Created(size, journal).pages == [] && Created(size, journal).journal == journal
    ensures Created(size, journal).index == BTree.Ready(Leaf.Leaf(3, 0, []))
  {
  }

  /** Opening changes the count, if it recovers, and clears the pending flag; every other field stays. */
  lemma OpenedHeader(d: Disk)
    requires Opens(d)
    ensures (d.header.journalPending ==> d.journal.None? || Replayable(d)) && Open(d).Some?
    ensures var r := Reopened(d);
      r.mem.header == r.disk.header == d.header.(recordCount := r.mem.header.recordCount, journalPending := false)
      && (!d.header.journalPending || d.journal.None? ==>
            r.mem.header.recordCount == d.header.recordCount && r.disk == d.(header := r.mem.header))
      && r.mem.free == r.disk.free && !r.mem.journalOpen
  {
    hide Redone, RebuildWrites, RedoWrites, Allocator.Refilled, ActiveCount, ApplyAll;
    OpensIs(d);
    ApplyNone(d);
    if d.header.journalPending {
      if d.journal.Some? {
        ReplayEffect(d);
      } else {
        ApplyOne(d, PutHeader(d.header.(journalPending := false)));
      }
    }
  }
}
