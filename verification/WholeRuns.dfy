/** Runs that transactions and crashes interrupt: the database goes on answering like a plain map. */
module WholeRuns {
  import opened Words
  import opened DbTypes
  import opened Pages
  import opened Disk
  import opened Directories
  import opened Engine
  import opened Recovery
  import opened Crash
  import opened Transactions
  import opened PlainMap
  import opened Compaction
  import opened Mending
  import opened Salvage

  // ---- The operations of a transaction on the plain map ----

  function AsOp(c: Change): Op {
    match c
    case Insert(data) => AddOp(data)
    case Replace(id, data) => UpdateOp(id, data)
    case Erase(id) => DeleteOp(id)
  }

  function AsOps(cs: seq<Change>): (ops: seq<Op>)
    ensures |ops| == |cs| && forall i :: 0 <= i < |cs| ==> ops[i] == AsOp(cs[i])
  {
    seq(|cs|, i requires 0 <= i < |cs| => AsOp(cs[i]))
  }

  predicate SequenceAllowed(p: Plain, cs: seq<Change>) {
    AllAllowed(p, AsOps(cs))
  }

  /** The plain map after the operations. */
  function PlainAfter(p: Plain, cs: seq<Change>): Plain
    requires SequenceAllowed(p, cs)
  {
    PlainRun(p, AsOps(cs)).0
  }

  lemma FirstAllowed(p: Plain, cs: seq<Change>)
    requires SequenceAllowed(p, cs) && cs != []
    ensures Allowed(p, AsOp(cs[0])) && SequenceAllowed(PlainStep(p, AsOp(cs[0])).0, cs[1..])
    ensures PlainAfter(p, cs) == PlainAfter(PlainStep(p, AsOp(cs[0])).0, cs[1..])
  {
    hide AsOp, Allowed, PlainStep, AsOps;
    assert AsOps(cs)[1..] == AsOps(cs[1..]);
  }

  lemma NoneAllowed(p: Plain)
    ensures SequenceAllowed(p, []) && PlainAfter(p, []) == p
  {
  }

  lemma {:induction false} PrefixAllowed(p: Plain, cs: seq<Change>, i: nat)
    requires SequenceAllowed(p, cs) && i <= |cs|
    ensures SequenceAllowed(p, cs[..i])
    ensures i > 0 ==>
      && Allowed(p, AsOp(cs[0])) && SequenceAllowed(PlainStep(p, AsOp(cs[0])).0, cs[1..][..i - 1])
      && PlainAfter(p, cs[..i]) == PlainAfter(PlainStep(p, AsOp(cs[0])).0, cs[1..][..i - 1])
    decreases i
  {
    hide AsOp, Allowed, PlainStep, AsOps, SequenceAllowed, PlainAfter;
    if i == 0 {
      NoneAllowed(p);
      assert cs[..0] == [];
    } else {
      FirstAllowed(p, cs);
      var p1, rest := PlainStep(p, AsOp(cs[0])).0, cs[1..][..i - 1];
      PrefixAllowed(p1, cs[1..], i - 1);
      assert cs[..i][1..] == rest;
      Prepended(p, cs[..i]);
    }
  }

  lemma Prepended(p: Plain, cs: seq<Change>)
    requires cs != [] && Allowed(p, AsOp(cs[0])) && SequenceAllowed(PlainStep(p, AsOp(cs[0])).0, cs[1..])
    ensures SequenceAllowed(p, cs) && PlainAfter(p, cs) == PlainAfter(PlainStep(p, AsOp(cs[0])).0, cs[1..])
  {
    hide AsOp, Allowed, PlainStep, AsOps;
    assert AsOps(cs)[1..] == AsOps(cs[1..]);
  }

  // ---- The operations of a transaction on the database ----

  lemma ChangeRefines(s: State, p: Plain, c: Change)
    requires Represents(s, p) && Allowed(p, AsOp(c))
    ensures Coherent(s) && Ready(s, c) && Represents(After(s, Run(s, c)), PlainStep(p, AsOp(c)).0)
    ensures Journals(s, c) <==> PlainJournals(p, c)
  {
    hide *;
    RepresentedFacts(s, p);
    RepresentedData(s, p);
    StepRefines(s, p, AsOp(c));
    PartsOf(s);
    AllowedIs(p, c);
    StepIs(s, c);
    PlainJournalsIs(s, p, c);
  }

  lemma AllowedIs(p: Plain, c: Change)
    requires Allowed(p, AsOp(c))
    ensures c.Insert? || c.Replace? ==> |c.data| == p.size
    ensures c.Insert? ==> |p.records| < MAX_RECORDS
  {
  }

  lemma StepIs(s: State, c: Change)
    requires Coherent(s) && Enabled(s, AsOp(c))
    requires c.Insert? || c.Replace? ==> |c.data| == s.mem.header.recordSize
    requires c.Insert? ==> |Entries(s.disk)| < MAX_RECORDS
    ensures Ready(s, c) && Step(s, AsOp(c)).0 == After(s, Run(s, c))
  {
    hide Coherent, Add, Update, Delete, After, Room;
  }

  lemma PlainJournalsIs(s: State, p: Plain, c: Change)
    requires Coherent(s) && Data(s) == p.records
    ensures Journals(s, c) <==> PlainJournals(p, c)
  {
    hide Coherent, Data;
    PartsOf(s);
  }

  /** The operation journals its pages: it is an addition, or its record exists. */
  predicate PlainJournals(p: Plain, c: Change) {
    c.Insert? || c.id in p.records
  }

  /** What the plain map allows is ready in the database, one operation after the other. */
  lemma {:induction false} SequenceRefines(s: State, p: Plain, cs: seq<Change>)
    requires InTransaction(s) && Represents(s, p) && SequenceAllowed(p, cs)
    ensures AllReady(s, cs) && Represents(RunAll(s, cs), PlainAfter(p, cs))
    decreases |cs|
  {
    hide *;
    JournaledIn(s);
    if cs == [] {
      NoOperations(s);
      NoneAllowed(p);
    } else {
      FirstAllowed(p, cs);
      ChangeRefines(s, p, cs[0]);
      OperationKeeps(s, cs[0]);
      SequenceRefines(After(s, Run(s, cs[0])), PlainStep(p, AsOp(cs[0])).0, cs[1..]);
      AllReadyFrom(s, cs);
    }
  }

  lemma AllReadyFrom(s: State, cs: seq<Change>)
    requires InTransaction(s) && cs != [] && Ready(s, cs[0]) && InTransaction(After(s, Run(s, cs[0])))
    requires AllReady(After(s, Run(s, cs[0])), cs[1..])
    ensures AllReady(s, cs) && RunAll(s, cs) == RunAll(After(s, Run(s, cs[0])), cs[1..])
  {
    hide InTransaction, Run, ApplyAll, Ready, Coherent;
  }

  /** How many of the operations have all their entries among the first `e` that the sequence journals. */
  function Kept(p: Plain, cs: seq<Change>, e: nat): (i: nat)
    requires SequenceAllowed(p, cs)
    ensures i <= |cs|
    decreases |cs|
  {
    var n := CalculatePagesNeeded(p.size);
    if cs == [] || (PlainJournals(p, cs[0]) && e < n) then 0
    else
      FirstAllowed(p, cs);
      1 + Kept(PlainStep(p, AsOp(cs[0])).0, cs[1..], if PlainJournals(p, cs[0]) then e - n else e)
  }

  /** The state after the operations in the journal is that of the plain map after as many of them. */
  lemma {:induction false} ReachedRefines(s: State, p: Plain, cs: seq<Change>, e: nat)
    requires InTransaction(s) && Represents(s, p) && SequenceAllowed(p, cs)
    ensures AllReady(s, cs) && SequenceAllowed(p, cs[..Kept(p, cs, e)])
    ensures Represents(Reached(s, cs, e), PlainAfter(p, cs[..Kept(p, cs, e)]))
    decreases |cs|
  {
    hide *;
    JournaledIn(s);
    RepresentedFacts(s, p);
    SequenceRefines(s, p, cs);
    PrefixAllowed(p, cs, Kept(p, cs, e));
    KeptStep(p, cs, e);
    if cs == [] {
      ReachedNone(s, e);
      NoneAllowed(p);
    } else {
      FirstStep(s, cs, e, 0);
      FirstAllowed(p, cs);
      ChangeRefines(s, p, cs[0]);
      if PlainJournals(p, cs[0]) && e < PagesPer(s) {
        NoneAllowed(p);
      } else {
        var e' := if PlainJournals(p, cs[0]) then e - PagesPer(s) else e;
        ReachedRefines(After(s, Run(s, cs[0])), PlainStep(p, AsOp(cs[0])).0, cs[1..], e');
      }
    }
  }

  lemma ReachedNone(s: State, e: nat)
    requires InTransaction(s)
    ensures AllReady(s, []) && Reached(s, [], e) == s
  {
    hide InTransaction;
  }

  lemma KeptStep(p: Plain, cs: seq<Change>, e: nat)
    requires SequenceAllowed(p, cs)
    ensures var n, i := CalculatePagesNeeded(p.size), Kept(p, cs, e);
      && (cs == [] ==> i == 0 && cs[..i] == [])
      && (cs != [] && PlainJournals(p, cs[0]) && e < n ==> i == 0 && cs[..i] == [])
      && (cs != [] && !(PlainJournals(p, cs[0]) && e < n) ==>
            && Allowed(p, AsOp(cs[0])) && SequenceAllowed(PlainStep(p, AsOp(cs[0])).0, cs[1..]) && i > 0
            && i - 1 == Kept(PlainStep(p, AsOp(cs[0])).0, cs[1..], if PlainJournals(p, cs[0]) then e - n else e))
  {
    hide SequenceAllowed, PlainStep, Allowed, AsOp, PlainJournals;
    if cs != [] {
      FirstAllowed(p, cs);
    }
  }

  // ---- A transaction that a crash cuts short ----

  function InTx(p: Plain): Plain {
    p.(mode := Journaled)
  }

  /** From a state between transactions one can begin, and what the plain map allows is ready in it. */
  lemma TransactionsCanBegin(s: State, p: Plain, cs: seq<Change>)
    requires Represents(s, p) && p.mode.Idle? && SequenceAllowed(InTx(p), cs)
    ensures Full(s) && !s.mem.header.journalPending && InTransaction(Begun(s)) && Represents(Begun(s), InTx(p))
    ensures AllReady(Begun(s), cs) && Represents(RunAll(Begun(s), cs), PlainAfter(InTx(p), cs))
  {
    hide *;
    RepresentedFacts(s, p);
    OutsideTransaction(s, p);
    BeginStarts(s);
    BracketsRefine(s, p);
    InTxIs(p);
    BegunIs(s);
    SequenceRefines(Begun(s), InTx(p), cs);
  }

  lemma OutsideTransaction(s: State, p: Plain)
    requires Represents(s, p) && p.mode.Idle?
    ensures Full(s) && !s.mem.header.journalPending
  {
    hide Full;
    NotPending(s);
  }

  lemma InTxIs(p: Plain)
    ensures InTx(p) == p.(mode := Journaled)
  {
  }

  lemma BegunIs(s: State)
    ensures Begun(s) == After(s, Begin(s.mem))
  {
  }

  /** A crash after `k` of the transaction's writes that leaves the journal at the end of an operation. */
  predicate CrashPoint(s: State, p: Plain, cs: seq<Change>, k: nat)
    requires Represents(s, p) && p.mode.Idle? && SequenceAllowed(InTx(p), cs)
  {
    TransactionsCanBegin(s, p, cs);
    && k <= |TransactionWrites(s, cs)|
    && (2 <= k <= 2 + |AllWrites(Begun(s), cs)| ==>
          JournalLength(ApplyAll(s.disk, TransactionWrites(s, cs)[..k])) % PagesPer(s) == 0)
  }

  /** The crash comes between an addition's journal entries and its header write. */
  predicate StalePoint(s: State, p: Plain, cs: seq<Change>, k: nat)
    requires Represents(s, p) && p.mode.Idle? && SequenceAllowed(InTx(p), cs)
  {
    TransactionsCanBegin(s, p, cs);
    2 <= k <= 2 + |AllWrites(Begun(s), cs)| && Stale(Begun(s), cs, k - 2)
  }

  function CrashedDisk(s: State, p: Plain, cs: seq<Change>, k: nat): Disk
    requires Represents(s, p) && p.mode.Idle? && SequenceAllowed(InTx(p), cs) && CrashPoint(s, p, cs, k)
  {
    TransactionsCanBegin(s, p, cs);
    ApplyAll(s.disk, TransactionWrites(s, cs)[..k])
  }

  /** How many of the transaction's operations the crash keeps: those in the journal, and from the commit on all. */
  function KeptAt(s: State, p: Plain, cs: seq<Change>, k: nat): (i: nat)
    requires Represents(s, p) && p.mode.Idle? && SequenceAllowed(InTx(p), cs) && CrashPoint(s, p, cs, k)
    ensures i <= |cs|
  {
    TransactionsCanBegin(s, p, cs);
    if k < 2 then 0
    else if k <= 2 + |AllWrites(Begun(s), cs)| then Kept(InTx(p), cs, JournalLength(CrashedDisk(s, p, cs, k)))
    else |cs|
  }

  /** The plain map after the first `i` operations of a transaction and a restart, in a file that has possibly grown. */
  function PlainCrash(p: Plain, cs: seq<Change>, i: nat): Plain
    requires SequenceAllowed(InTx(p), cs) && i <= |cs|
  {
    PrefixAllowed(InTx(p), cs, i);
    var q := PlainAfter(InTx(p), cs[..i]);
    q.(mode := Idle, pages := q.pages + CalculatePagesNeeded(p.size))
  }

  /** The outcome of the crash represents the plain map after the operations kept. */
  lemma OutcomeRefines(s: State, p: Plain, cs: seq<Change>, k: nat)
    requires Represents(s, p) && p.mode.Idle? && SequenceAllowed(InTx(p), cs) && CrashPoint(s, p, cs, k)
    ensures InTransaction(Begun(s)) && AllReady(Begun(s), cs) && k <= |TransactionWrites(s, cs)|
    ensures var o, q := CrashOutcome(s, cs, k), PlainCrash(p, cs, KeptAt(s, p, cs, k));
      && Full(o) && Data(o) == q.records && o.mem.header.recordSize == q.size && o.mem.header.nextRecordId == q.next
      && |o.disk.pages| + PagesPer(s) <= q.pages && PagesPer(o) == PagesPer(s) == CalculatePagesNeeded(p.size)
  {
    hide *;
    RepresentedFacts(s, p);
    TransactionsCanBegin(s, p, cs);
    CrashPointIs(s, p, cs, k);
    BeginStarts(s);
    TransactionPrefix(s, cs, k);
    CrashOutcomeIs(s, cs, k);
    var d, w, b, q := CrashedDisk(s, p, cs, k), |AllWrites(Begun(s), cs)|, Begun(s), InTx(p);
    if k < 2 {
      NoneAllowed(q);
      assert cs[..0] == [];
      RepresentedIs(s, p);
      InTxIs(p);
    } else if k <= 2 + w {
      CrashAtomicity(b, cs, k - 2);
      ReachedRefines(b, q, cs, JournalLength(d));
      RepresentedIs(CrashOutcome(s, cs, k), PlainAfter(q, cs[..Kept(q, cs, JournalLength(d))]));
    } else {
      assert cs[..|cs|] == cs;
      RepresentedIs(RunAll(b, cs), PlainAfter(q, cs));
    }
  }

  lemma RepresentedIs(s: State, p: Plain)
    requires Represents(s, p)
    ensures Full(s) && Data(s) == p.records && s.mem.header.recordSize == p.size && s.mem.header.nextRecordId == p.next
    ensures s.disk.header.nextRecordId == p.next && |s.disk.pages| <= p.pages
  {
    hide Full;
  }

  lemma CrashPointIs(s: State, p: Plain, cs: seq<Change>, k: nat)
    requires Represents(s, p) && p.mode.Idle? && SequenceAllowed(InTx(p), cs) && CrashPoint(s, p, cs, k)
    ensures InTransaction(Begun(s)) && AllReady(Begun(s), cs) && k <= |TransactionWrites(s, cs)|
    ensures CrashedDisk(s, p, cs, k) == ApplyAll(s.disk, TransactionWrites(s, cs)[..k])
    ensures 2 <= k <= 2 + |AllWrites(Begun(s), cs)| ==> JournalLength(CrashedDisk(s, p, cs, k)) % PagesPer(s) == 0
    ensures StalePoint(s, p, cs, k) <==> 2 <= k <= 2 + |AllWrites(Begun(s), cs)| && Stale(Begun(s), cs, k - 2)
    ensures KeptAt(s, p, cs, k) ==
      if k < 2 then 0
      else if k <= 2 + |AllWrites(Begun(s), cs)| then Kept(InTx(p), cs, JournalLength(CrashedDisk(s, p, cs, k)))
      else |cs|
    ensures SequenceAllowed(InTx(p), cs[..KeptAt(s, p, cs, k)])
    ensures var q := PlainAfter(InTx(p), cs[..KeptAt(s, p, cs, k)]);
      PlainCrash(p, cs, KeptAt(s, p, cs, k))
        == q.(mode := Idle, pages := q.pages + CalculatePagesNeeded(p.size))
  {
    hide InTransaction, AllReady, Represents, SequenceAllowed, TransactionWrites, AllWrites, Stale, Kept, PlainAfter,
      Begun, ApplyAll;
    TransactionsCanBegin(s, p, cs);
    PrefixAllowed(InTx(p), cs, KeptAt(s, p, cs, k));
  }

  /** Where a crash in a transaction leads: opening the database succeeds and finds the records of the plain map after
      the operations kept, no page lost. Unless the crash came between an addition's journal entries and its header
      write the reopened database represents that plain map. Otherwise it does so but for its next id, which is
      live. */
  lemma CrashRefines(s: State, p: Plain, cs: seq<Change>, k: nat)
    requires Represents(s, p) && p.mode.Idle? && SequenceAllowed(InTx(p), cs) && CrashPoint(s, p, cs, k)
    ensures var d, q := CrashedDisk(s, p, cs, k), PlainCrash(p, cs, KeptAt(s, p, cs, k));
      && (d.header.journalPending ==> d.journal.None? || Replayable(d)) && Open(d).Some?
      && var r := Reopened(d);
      && Coherent(r) && NoneLost(r) && Data(r) == q.records
      && (!StalePoint(s, p, cs, k) ==> Represents(r, q))
      && (StalePoint(s, p, cs, k) ==> r.mem.header.nextRecordId == q.next - 1 && q.next - 1 in Data(r))
  {
    hide *;
    OutcomeRefines(s, p, cs, k);
    CrashPointIs(s, p, cs, k);
    OutsideTransaction(s, p);
    RepresentedFacts(s, p);
    TransactionCrash(s, cs, k);
    TransactionPrefix(s, cs, k);
    CrashOutcomeIs(s, cs, k);
    var d, w, b, o, q := CrashedDisk(s, p, cs, k), |AllWrites(Begun(s), cs)|, Begun(s), CrashOutcome(s, cs, k),
      PlainCrash(p, cs, KeptAt(s, p, cs, k));
    RecoveredParts(d, o);
    if 2 <= k <= 2 + w {
      CrashAtomicity(b, cs, k - 2);
      BeginStarts(s);
    } else {
      OutsideNext(s, p, cs, k);
    }
    RecoveredRepresents(Reopened(d), q, StalePoint(s, p, cs, k));
  }

  /** The ids and pages after a crash before BeginTransaction or after CommitTransaction have written the header. */
  lemma OutsideNext(s: State, p: Plain, cs: seq<Change>, k: nat)
    requires Represents(s, p) && p.mode.Idle? && SequenceAllowed(InTx(p), cs) && CrashPoint(s, p, cs, k)
    requires InTransaction(Begun(s)) && AllReady(Begun(s), cs) && !(2 <= k <= 2 + |AllWrites(Begun(s), cs)|)
    ensures var d, o := CrashedDisk(s, p, cs, k), CrashOutcome(s, cs, k);
      && Full(o) && !d.header.journalPending && d.header.recordSize == o.mem.header.recordSize
      && d.header.nextRecordId == o.mem.header.nextRecordId && d.pages == o.disk.pages
      && IdsUpTo(Data(o), d.header.nextRecordId, false)
  {
    hide *;
    CrashPointIs(s, p, cs, k);
    OutsideTransaction(s, p);
    TransactionPrefix(s, cs, k);
    CrashOutcomeIs(s, cs, k);
    RepresentedIs(s, p);
    HeaderUnpending(s);
    TransactionFacts(RunAll(Begun(s), cs));
    IdsBelowNext(CrashOutcome(s, cs, k));
  }

  lemma RecoveredParts(d: Disk, s: State)
    requires Coherent(s) && RecoversTo(d, s)
    ensures (d.header.journalPending ==> d.journal.None? || Replayable(d)) && Open(d).Some?
    ensures Coherent(Reopened(d)) && NoneLost(Reopened(d)) && Data(Reopened(d)) == Data(s)
    ensures Reopened(d).mem.header.nextRecordId == d.header.nextRecordId && !Reopened(d).mem.header.journalPending
    ensures Reopened(d).disk.header == Reopened(d).mem.header
    ensures !d.header.journalPending ==>
      Reopened(d).disk.pages == d.pages && Reopened(d).mem.header.recordSize == d.header.recordSize
  {
    hide Coherent, NoneLost, Data, Replay;
    ApplyNone(d);
  }

  lemma RecoveredRepresents(r: State, q: Plain, stale: bool)
    requires Coherent(r) && NoneLost(r) && Data(r) == q.records && r.disk.header == r.mem.header
    requires IdsUpTo(Data(r), r.mem.header.nextRecordId, stale)
      && q.next == r.mem.header.nextRecordId + if stale then 1 else 0
    requires r.mem.header.recordSize == q.size && q.mode.Idle? && !r.mem.header.journalPending
    requires |r.disk.pages| <= q.pages
    ensures !stale ==> Represents(r, q)
    ensures stale ==> q.next - 1 in Data(r)
  {
    hide NoneLost, Coherent, Data, Runs, FreeAgrees, Operable, DirectoryOf, Singles;
    PartsOf(r);
    forall id | id in Dir(r.disk) ensures 1 <= id && (!stale ==> id < r.mem.header.nextRecordId) {
      assert id in Data(r);
    }
  }

  // ---- Runs of operations and crashes ----

  /** What happens to the database: an operation; a transaction of which a crash leaves the first `k` writes on disk,
      after which the database is opened again; or any operation, inside a transaction or outside, of which a crash
      leaves the first `k` writes, after which the database is mended. */
  datatype Event = Do(op: Op) | CrashIn(cs: seq<Change>, k: nat) | Break(op: Op, k: nat, now: int32)

  /** The same for the plain map: an operation, the first operations of a transaction, or part of an operation. */
  datatype PlainEvent = Did(op: Op) | Survived(cs: seq<Change>, kept: nat) | Repaired(op: Op, part: nat)

  predicate CanHappen(s: State, p: Plain, e: Event)
    requires Represents(s, p)
  {
    match e
    case Do(op) => Allowed(p, op)
    case CrashIn(cs, k) =>
      p.mode.Idle? && SequenceAllowed(InTx(p), cs) && CrashPoint(s, p, cs, k) && !StalePoint(s, p, cs, k)
    case Break(op, k, now) =>
      Allowed(p, op) && Repairable(p, op) && PointOpens(s, op, k) && WithinOp(s, p, op, k)
  }

  predicate WithinOp(s: State, p: Plain, op: Op, k: nat)
    requires Represents(s, p) && Allowed(p, op)
  {
    StepRefines(s, p, op);
    k <= |OpWrites(s, op)|
  }

  /** The disk that the crash leaves, and how much of the operation. */
  function Broken(s: State, p: Plain, op: Op, k: nat): (Disk, nat)
    requires Represents(s, p) && Allowed(p, op) && WithinOp(s, p, op, k)
  {
    StepRefines(s, p, op);
    (CrashDisk(s, op, k), Part(s, op, k))
  }

  /** The mended database, and what it is to the plain map. */
  lemma BreakRefines(s: State, p: Plain, op: Op, k: nat, now: int32)
    requires Represents(s, p) && Allowed(p, op) && Repairable(p, op) && PointOpens(s, op, k) && WithinOp(s, p, op, k)
    ensures Sized(p) && MendsTo(Broken(s, p, op, k).0, now, Salvaged(p, op, Broken(s, p, op, k).1))
  {
    hide *;
    AnyPoint(s, p, op, k, now);
    WithinIs(s, p, op, k);
  }

  lemma WithinIs(s: State, p: Plain, op: Op, k: nat)
    requires Represents(s, p) && Allowed(p, op) && WithinOp(s, p, op, k)
    ensures Coherent(s) && Enabled(s, op) && k <= |OpWrites(s, op)|
    ensures Broken(s, p, op, k) == (CrashDisk(s, op, k), Part(s, op, k))
  {
    hide Represents, Allowed, Enabled, Coherent, OpWrites, CrashDisk, Part;
    StepRefines(s, p, op);
  }

  function Happens(s: State, p: Plain, e: Event): (State, Reply)
    requires Represents(s, p) && CanHappen(s, p, e)
  {
    match e
    case Do(op) => StepRefines(s, p, op); Step(s, op)
    case CrashIn(cs, k) => CrashRefines(s, p, cs, k); (Reopened(CrashedDisk(s, p, cs, k)), Done)
    case Break(op, k, now) =>
      BreakRefines(s, p, op, k, now);
      MendsToIs(Broken(s, p, op, k).0, now, Salvaged(p, op, Broken(s, p, op, k).1));
      (Mended(Broken(s, p, op, k).0, now).value, Done)
  }

  function PlainView(s: State, p: Plain, e: Event): PlainEvent
    requires Represents(s, p) && CanHappen(s, p, e)
  {
    match e
    case Do(op) => Did(op)
    case CrashIn(cs, k) => Survived(cs, KeptAt(s, p, cs, k))
    case Break(op, k, _) => Repaired(op, Broken(s, p, op, k).1)
  }

  predicate PlainCan(p: Plain, e: PlainEvent) {
    match e
    case Did(op) => Allowed(p, op)
    case Survived(cs, kept) => SequenceAllowed(InTx(p), cs) && kept <= |cs|
    case Repaired(op, _) => Allowed(p, op) && Sized(p)
  }

  function PlainHappens(p: Plain, e: PlainEvent): (Plain, Reply)
    requires PlainCan(p, e)
  {
    match e
    case Did(op) => PlainStep(p, op)
    case Survived(cs, kept) => (PlainCrash(p, cs, kept), Done)
    case Repaired(op, part) => (Salvaged(p, op, part), Done)
  }

  lemma EventRefines(s: State, p: Plain, e: Event)
    requires Represents(s, p) && CanHappen(s, p, e)
    ensures var v := PlainView(s, p, e);
      && PlainCan(p, v) && Happens(s, p, e).1 == PlainHappens(p, v).1
      && Represents(Happens(s, p, e).0, PlainHappens(p, v).0)
  {
    hide Represents, Allowed, SequenceAllowed, CrashPoint, StalePoint, Step, PlainStep, PlainCrash, KeptAt,
      CrashedDisk, Reopened, Open, Replayable, Coherent, Repairable, PointOpens, WithinOp, Broken, Sized, MendsTo,
      Mended, Salvaged;
    match e {
      case Do(op) => StepRefines(s, p, op);
      case CrashIn(cs, k) => CrashRefines(s, p, cs, k);
      case Break(op, k, now) =>
        BreakRefines(s, p, op, k, now);
        MendsToIs(Broken(s, p, op, k).0, now, Salvaged(p, op, Broken(s, p, op, k).1));
    }
  }

  predicate AllCanHappen(s: State, p: Plain, es: seq<Event>)
    requires Represents(s, p)
    decreases |es|
  {
    es == [] ||
    (CanHappen(s, p, es[0]) &&
     (EventRefines(s, p, es[0]);
      AllCanHappen(Happens(s, p, es[0]).0, PlainHappens(p, PlainView(s, p, es[0])).0, es[1..])))
  }

  /** The state after the events, and the replies. */
  function RunEvents(s: State, p: Plain, es: seq<Event>): (State, seq<Reply>)
    requires Represents(s, p) && AllCanHappen(s, p, es)
    decreases |es|
  {
    if es == [] then (s, [])
    else
      EventRefines(s, p, es[0]);
      var (s1, r) := Happens(s, p, es[0]);
      var (s2, rs) := RunEvents(s1, PlainHappens(p, PlainView(s, p, es[0])).0, es[1..]);
      (s2, [r] + rs)
  }

  /** What the events are to the plain map. */
  function PlainViews(s: State, p: Plain, es: seq<Event>): seq<PlainEvent>
    requires Represents(s, p) && AllCanHappen(s, p, es)
    decreases |es|
  {
    if es == [] then []
    else
      EventRefines(s, p, es[0]);
      var v := PlainView(s, p, es[0]);
      [v] + PlainViews(Happens(s, p, es[0]).0, PlainHappens(p, v).0, es[1..])
  }

  /** The plain map after the events, and its replies; none when one of them is not allowed. */
  function PlainEvents(p: Plain, es: seq<PlainEvent>): Option<(Plain, seq<Reply>)>
    decreases |es|
  {
    if es == [] then Some((p, []))
    else if !PlainCan(p, es[0]) then None
    else
      var (p1, r) := PlainHappens(p, es[0]);
      match PlainEvents(p1, es[1..])
      case None => None
      case Some((p2, rs)) => Some((p2, [r] + rs))
  }

  lemma {:induction false} EventsRefine(s: State, p: Plain, es: seq<Event>)
    requires Represents(s, p) && AllCanHappen(s, p, es)
    ensures var r := PlainEvents(p, PlainViews(s, p, es));
      r.Some? && RunEvents(s, p, es).1 == r.value.1 && Represents(RunEvents(s, p, es).0, r.value.0)
    decreases |es|
  {
    hide Represents, CanHappen, Happens, PlainHappens, PlainCan, PlainView;
    if es != [] {
      EventRefines(s, p, es[0]);
      EventsRefine(Happens(s, p, es[0]).0, PlainHappens(p, PlainView(s, p, es[0])).0, es[1..]);
    }
  }

  predicate CreatedRun(size: uint16, journal: Option<seq<DBJournalEntry>>, es: seq<Event>)
    requires size > 0
  {
    CreateRepresents(size, journal);
    AllCanHappen(Reopened(Created(size, journal)), Plain(size, map[], 1, 0, Idle), es)
  }

  /** Every run of operations, transactions and crashes on a newly created database gives the answers of a plain map
      that starts empty. It keeps of each interrupted transaction the operations whose entries reached the journal when
      the database is only opened again, and of any other interrupted operation the part that Salvaged says when it is
      mended; in the end the records are those of the map, no page is lost and the database validates. */
  lemma WholeRunWithCrashes(size: uint16, journal: Option<seq<DBJournalEntry>>, es: seq<Event>)
    requires size > 0 && CreatedRun(size, journal, es)
    ensures var d, p := Created(size, journal), Plain(size, map[], 1, 0, Idle);
      && !d.header.journalPending && Open(d).Some? && Represents(Reopened(d), p) && AllCanHappen(Reopened(d), p, es)
      && var (s', replies) := RunEvents(Reopened(d), p, es);
      var r := PlainEvents(p, PlainViews(Reopened(d), p, es));
      && r.Some? && replies == r.value.1 && Full(s') && Data(s') == r.value.0.records && Validates(s')
  {
    hide *;
    CreateRepresents(size, journal);
    var d, p := Created(size, journal), Plain(size, map[], 1, 0, Idle);
    CreatedRunIs(size, journal, es);
    EventsRefine(Reopened(d), p, es);
    RepresentedIs(RunEvents(Reopened(d), p, es).0, PlainEvents(p, PlainViews(Reopened(d), p, es)).value.0);
    FullValidates(RunEvents(Reopened(d), p, es).0);
  }

  lemma CreatedRunIs(size: uint16, journal: Option<seq<DBJournalEntry>>, es: seq<Event>)
    requires size > 0 && CreatedRun(size, journal, es)
    ensures var d, p := Created(size, journal), Plain(size, map[], 1, 0, Idle);
      !d.header.journalPending && Open(d).Some? && Represents(Reopened(d), p) && AllCanHappen(Reopened(d), p, es)
  {
    hide Represents, AllCanHappen, Open, Reopened, Created;
    CreateRepresents(size, journal);
  }
}
