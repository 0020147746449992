/** Whole transactions: a crash at any point, and crashes during the recovery itself. */
module Transactions {
  import opened Words
  import opened Pages
  import opened Disk
  import opened Directories
  import opened Engine
  import opened Refinement
  import opened Journal
  import opened Recovery
  import opened Crash
  import Allocator
  import BTree

  // ---- Sequences of operations ----

  /** Each operation is ready in the state that the earlier ones leave. */
  predicate AllReady(s: State, cs: seq<Change>)
    requires InTransaction(s)
    decreases |cs|
  {
    cs == [] || (Ready(s, cs[0]) && (OperationKeeps(s, cs[0]); AllReady(After(s, Run(s, cs[0])), cs[1..])))
  }

  function RunAll(s: State, cs: seq<Change>): (r: State)
    requires InTransaction(s) && AllReady(s, cs)
    ensures InTransaction(r) && PagesPer(r) == PagesPer(s)
    decreases |cs|
  {
    if cs == [] then s
    else OperationKeeps(s, cs[0]); RunAll(After(s, Run(s, cs[0])), cs[1..])
  }

  function AllWrites(s: State, cs: seq<Change>): seq<Write>
    requires InTransaction(s) && AllReady(s, cs)
    decreases |cs|
  {
    if cs == [] then []
    else OperationKeeps(s, cs[0]); Run(s, cs[0]).writes + AllWrites(After(s, Run(s, cs[0])), cs[1..])
  }

  /** The state after the operations whose entries are among the first `j` that the sequence journals. */
  function Reached(s: State, cs: seq<Change>, j: nat): (r: State)
    requires InTransaction(s) && AllReady(s, cs)
    ensures InTransaction(r) && PagesPer(r) == PagesPer(s)
    decreases |cs|
  {
    if cs == [] || (Journals(s, cs[0]) && j < PagesPer(s)) then s
    else
      OperationKeeps(s, cs[0]);
      Reached(After(s, Run(s, cs[0])), cs[1..], if Journals(s, cs[0]) then j - PagesPer(s) else j)
  }

  /** The first `k` writes end inside an addition, after its journal entries and before its header write. */
  predicate Stale(s: State, cs: seq<Change>, k: nat)
    requires InTransaction(s) && AllReady(s, cs)
    decreases |cs|
  {
    cs != [] &&
    var ws := Run(s, cs[0]).writes;
    if k < |ws| then
      var j := ApplyAll(s.disk, ws[..k]).journal;
      cs[0].Insert? && j.Some? && |j.value| == |s.disk.journal.value| + PagesPer(s)
    else OperationKeeps(s, cs[0]); Stale(After(s, Run(s, cs[0])), cs[1..], k - |ws|)
  }

  // ---- Disks from which recovery gives the records of a state ----

  /** Replaying the journal gives the pages of `s`, in a file that has possibly grown. */
  predicate Recoverable(d: Disk, s: State, grown: nat) {
    && |s.disk.pages| + grown <= Allocator.MAX_PAGES
    && d.journal.Some? && Named(d.journal.value) && InFile(d.journal.value, |d.pages|)
    && d.index != BTree.NoHeader && Redone(d) == s.disk.pages + Empties(grown)
    && d.leading == 2 && d.header.journalPending && GoodHeader(d.header)
    && d.header.recordSize == s.mem.header.recordSize
  }

  lemma RecoverableRecovers(d: Disk, s: State, grown: nat)
    requires Full(s) && Recoverable(d, s, grown)
    ensures RecoversTo(d, s) && Dir(Reopened(d).disk) == Dir(s.disk)
    ensures |Reopened(d).disk.pages| == |s.disk.pages| + grown
    ensures Reopened(d).mem.header.recordSize == s.mem.header.recordSize
  {
    hide Full, Redo, Named, InFile;
    RecoversWhen(d, s, grown);
  }

  lemma SettledRecoverable(s: State)
    requires InTransaction(s)
    ensures Recoverable(s.disk, s, 0)
  {
    hide Redo, Named, InFile, Full, GoodHeader, InTransaction;
    TransactionFacts(s);
    JournaledIn(s);
    assert s.disk.pages + Empties(0) == s.disk.pages;
  }

  // ---- A crash inside one operation ----

  /** How many of the operation's journal entries are among its first `k` writes. */
  function EntriesBy(s: State, c: Change, k: nat): (m: nat)
    requires InTransaction(s) && Ready(s, c)
    ensures m <= PagesPer(s)
  {
    var n, before := PagesPer(s), if c.Insert? then |AddAllocation(s).writes| else 0;
    if k <= before then 0 else if k < before + n then k - before else n
  }

  lemma OperationCrash(s: State, c: Change, k: nat) returns (m: nat, grown: nat)
    requires InTransaction(s) && Ready(s, c) && Journals(s, c) && k < |Run(s, c).writes|
    ensures CrashedAt(s.disk, After(s, Run(s, c)).disk, PagesPer(s), ApplyAll(s.disk, Run(s, c).writes[..k]), m, grown)
    ensures ApplyAll(s.disk, Run(s, c).writes[..k]).header.nextRecordId == s.disk.header.nextRecordId
    ensures (c.Insert? || grown == 0) && m == EntriesBy(s, c, k)
  {
    hide ApplyAll, InTransaction, Add, Update, Delete, CrashedAt, Coherent;
    JournaledIn(s);
    match c {
      case Insert(data) => m, grown := AddCrash(s, data, k);
      case Replace(id, data) => m := UpdateCrash(s, id, data, k); grown := 0;
      case Erase(id) =>
        m := DeleteCrash(s, id, k);
        grown := 0;
        EraseIds(s, id);
        CrashedHeader(s.disk, After(s, Delete(s, id)).disk, PagesPer(s), ApplyAll(s.disk, Run(s, c).writes[..k]), m, 0);
    }
  }

  lemma CrashedHeader(before: Disk, after: Disk, n: nat, d: Disk, m: nat, grown: nat)
    requires CrashedAt(before, after, n, d, m, grown)
    ensures d.header in {before.header, after.header}
  {
  }

  lemma EraseIds(s: State, id: int32)
    requires InTransaction(s) && id in Dir(s.disk)
    ensures After(s, Delete(s, id)).disk.header.nextRecordId == s.disk.header.nextRecordId
  {
    hide *;
    JournaledIn(s);
    TransactionFacts(s);
    DeleteSettles(s, id);
    DeleteIds(s, id);
  }

  lemma DeleteIds(s: State, id: int32)
    requires Coherent(s) && id in Dir(s.disk)
    ensures Delete(s, id).mem.header.nextRecordId == s.mem.header.nextRecordId
  {
  }

  lemma TransactionFacts(s: State)
    requires InTransaction(s)
    ensures Full(s) && GoodHeader(s.disk.header) && s.disk.header.journalPending && s.disk.header == s.mem.header
    ensures s.disk.journal.Some? && |s.disk.pages| <= Allocator.MAX_PAGES && s.disk.leading == 2
  {
  }

  lemma RoomToGrow(s: State, c: Change)
    requires Coherent(s) && Ready(s, c) && c.Insert?
    ensures |s.disk.pages| + PagesPer(s) <= Allocator.MAX_PAGES
  {
  }

  /** Where recovery goes from a crashed operation. */
  lemma CrashedRecoverable(s: State, s': State, n: nat, d: Disk, m: nat, grown: nat)
    requires InTransaction(s) && InTransaction(s') && s'.mem.header.recordSize == s.mem.header.recordSize
    requires CrashedAt(s.disk, s'.disk, n, d, m, grown) && |s.disk.pages| + grown <= Allocator.MAX_PAGES
    ensures d.journal.Some? && |d.journal.value| == |s.disk.journal.value| + m && m <= n
    ensures m == 0 ==> Recoverable(d, s, grown)
    ensures m == n ==> Recoverable(d, s', 0)
  {
    hide Full, SettledDisk, Named, InFile, Redo;
    TransactionFacts(s);
    TransactionFacts(s');
    assert s'.disk.pages + Empties(0) == s'.disk.pages;
  }

  // ---- Live ids ----

  /** The live ids are at most the next id, which itself is live exactly when `stale`. */
  predicate IdsUpTo(data: map<int32, bytes>, next: int32, stale: bool) {
    && (forall id :: id in data ==> 1 <= id <= next)
    && (next in data <==> stale)
  }

  lemma IdsBelowNext(s: State)
    requires Full(s)
    ensures IdsUpTo(Data(s), s.disk.header.nextRecordId, false)
  {
    hide Runs, NoneLost, Records, HeadersAgree, FreeAgrees;
  }

  lemma IdsAfterInsert(s: State, c: Change)
    requires InTransaction(s) && Ready(s, c) && Journals(s, c)
    ensures Full(After(s, Run(s, c)))
    ensures IdsUpTo(Data(After(s, Run(s, c))), s.disk.header.nextRecordId, c.Insert?)
  {
    hide Full, Coherent, Core, Add, Update, Delete, Data, InTransaction, IdsUpTo;
    TransactionFacts(s);
    FullFacts(s);
    FullOperation(s, c);
    FullFacts(After(s, Run(s, c)));
    IdsBelowNext(s);
    match c {
      case Insert(data) =>
        AddKeepsCore(s, data);
        IdsEntered(Data(s), s.disk.header.nextRecordId, data);
      case Replace(id, data) =>
        UpdateKeeps(s, id, data);
        IdsReplaced(Data(s), s.disk.header.nextRecordId, id, data);
      case Erase(id) =>
        DeleteKeeps(s, id);
        IdsRemoved(Data(s), s.disk.header.nextRecordId, id);
    }
  }

  lemma FullFacts(s: State)
    requires Full(s)
    ensures Core(s) && Coherent(s) && |Entries(s.disk)| <= MAX_RECORDS
    ensures forall id :: id in Data(s) <==> id in Dir(s.disk)
  {
    EntryCount(s);
  }

  lemma IdsEntered(data: map<int32, bytes>, next: int32, record: bytes)
    requires IdsUpTo(data, next, false) && 1 <= next
    ensures IdsUpTo(data[next := record], next, true)
  {
  }

  lemma IdsReplaced(data: map<int32, bytes>, next: int32, id: int32, record: bytes)
    requires IdsUpTo(data, next, false)
    ensures id in data ==> IdsUpTo(data[id := record], next, false)
  {
  }

  lemma IdsRemoved(data: map<int32, bytes>, next: int32, id: int32)
    requires IdsUpTo(data, next, false)
    ensures IdsUpTo(data - {id}, next, false)
  {
  }

  // ---- A crash inside a sequence of operations ----

  lemma WritesSplit(s: State, cs: seq<Change>, k: nat)
    requires InTransaction(s) && AllReady(s, cs) && cs != [] && k <= |AllWrites(s, cs)|
    ensures Ready(s, cs[0]) && InTransaction(After(s, Run(s, cs[0]))) && AllReady(After(s, Run(s, cs[0])), cs[1..])
    ensures var ws, s1 := Run(s, cs[0]).writes, After(s, Run(s, cs[0]));
      && (k < |ws| ==> AllWrites(s, cs)[..k] == ws[..k])
      && (k >= |ws| ==>
           k - |ws| <= |AllWrites(s1, cs[1..])| &&
           ApplyAll(s.disk, AllWrites(s, cs)[..k]) == ApplyAll(s1.disk, AllWrites(s1, cs[1..])[..k - |ws|]))
  {
    hide InTransaction, Run, ApplyAll, Ready, Coherent;
    JournaledIn(s);
    ReadyFirst(s, cs);
    OperationKeeps(s, cs[0]);
    var ws, s1 := Run(s, cs[0]).writes, After(s, Run(s, cs[0]));
    if k >= |ws| {
      assert AllWrites(s, cs)[..k] == ws + AllWrites(s1, cs[1..])[..k - |ws|];
      ApplyConcat(s.disk, ws, AllWrites(s1, cs[1..])[..k - |ws|]);
    }
  }

  lemma ReadyFirst(s: State, cs: seq<Change>)
    requires InTransaction(s) && AllReady(s, cs) && cs != []
    ensures Ready(s, cs[0]) && InTransaction(After(s, Run(s, cs[0]))) && AllReady(After(s, Run(s, cs[0])), cs[1..])
    ensures PagesPer(After(s, Run(s, cs[0]))) == PagesPer(s)
  {
    hide InTransaction, Run, ApplyAll, Coherent;
    OperationKeeps(s, cs[0]);
  }

  /** What holds of the disk `d` left by a crash in a sequence of operations. */
  predicate CrashesTo(d: Disk, reached: State, grown: nat, stale: bool)
    requires Full(reached)
  {
    && Recoverable(d, reached, grown) && IdsUpTo(Data(reached), d.header.nextRecordId, stale)
    && reached.mem.header.nextRecordId == d.header.nextRecordId + if stale then 1 else 0
  }

  lemma CrashInFirst(s: State, c: Change, k: nat) returns (m: nat, grown: nat)
    requires InTransaction(s) && Ready(s, c) && k < |Run(s, c).writes|
    ensures Journals(s, c) && Full(s) && Full(After(s, Run(s, c))) && grown <= PagesPer(s)
    ensures var d := ApplyAll(s.disk, Run(s, c).writes[..k]);
      && d.journal.Some? && |d.journal.value| == |s.disk.journal.value| + m && m <= PagesPer(s)
      && m == EntriesBy(s, c, k) && (m == 0 ==> CrashesTo(d, s, grown, false))
      && (m == PagesPer(s) ==> CrashesTo(d, After(s, Run(s, c)), 0, c.Insert?))
  {
    hide *;
    TransactionFacts(s);
    JournaledIn(s);
    OperationKeeps(s, c);
    SameSize(s, c);
    OutcomeMemory(s, c);
    AfterMemory(s, Run(s, c));
    m, grown := OperationCrash(s, c, k);
    var d, s' := ApplyAll(s.disk, Run(s, c).writes[..k]), After(s, Run(s, c));
    CrashedGrowth(s.disk, s'.disk, PagesPer(s), d, m, grown);
    if c.Insert? {
      RoomToGrow(s, c);
    }
    CrashedRecoverable(s, s', PagesPer(s), d, m, grown);
    IdsBelowNext(s);
    IdsAfterInsert(s, c);
    if m == 0 {
      CrashesToIs(d, s, grown, false);
    }
    if m == PagesPer(s) {
      CrashesToIs(d, s', 0, c.Insert?);
    }
  }

  lemma CrashesToIs(d: Disk, reached: State, grown: nat, stale: bool)
    requires Full(reached) && Recoverable(d, reached, grown) && IdsUpTo(Data(reached), d.header.nextRecordId, stale)
    requires reached.mem.header.nextRecordId == d.header.nextRecordId + if stale then 1 else 0
    ensures CrashesTo(d, reached, grown, stale)
  {
  }

  lemma CrashedGrowth(before: Disk, after: Disk, n: nat, d: Disk, m: nat, grown: nat)
    requires CrashedAt(before, after, n, d, m, grown)
    ensures grown <= n
  {
  }

  lemma AfterMemory(s: State, o: Outcome)
    ensures After(s, o).mem == o.mem
  {
  }

  lemma SameSize(s: State, c: Change)
    requires InTransaction(s) && Ready(s, c)
    ensures After(s, Run(s, c)).mem.header.recordSize == s.mem.header.recordSize
  {
    OutcomeMemory(s, c);
  }

  lemma {:induction false} ReachedNothing(s: State, cs: seq<Change>)
    requires InTransaction(s) && AllReady(s, cs)
    ensures Reached(s, cs, 0) == s
    decreases |cs|
  {
    hide InTransaction, Run, ApplyAll, Ready, Coherent, Journals;
    if cs != [] {
      ReadyFirst(s, cs);
      JournaledIn(s);
      OperationKeeps(s, cs[0]);
      if !Journals(s, cs[0]) {
        ReachedNothing(s, cs[1..]);
      }
    }
  }

  lemma FirstStep(s: State, cs: seq<Change>, j: nat, k: nat)
    requires InTransaction(s) && AllReady(s, cs) && cs != []
    ensures Ready(s, cs[0]) && InTransaction(After(s, Run(s, cs[0]))) && AllReady(After(s, Run(s, cs[0])), cs[1..])
    ensures var c, s1 := cs[0], After(s, Run(s, cs[0]));
      && (Journals(s, c) && j < PagesPer(s) ==> Reached(s, cs, j) == s)
      && (Journals(s, c) && j >= PagesPer(s) ==> Reached(s, cs, j) == Reached(s1, cs[1..], j - PagesPer(s)))
      && (!Journals(s, c) ==> Reached(s, cs, j) == Reached(s1, cs[1..], j))
      && (k >= |Run(s, c).writes| ==> Stale(s, cs, k) == Stale(s1, cs[1..], k - |Run(s, c).writes|))
      && (k < |Run(s, c).writes| ==>
            var d := ApplyAll(s.disk, Run(s, c).writes[..k]);
            Stale(s, cs, k)
              == (c.Insert? && d.journal.Some? && |d.journal.value| == |s.disk.journal.value| + PagesPer(s)))
  {
    hide InTransaction, Run, ApplyAll, Ready, Coherent, Journals;
    JournaledIn(s);
    ReadyFirst(s, cs);
    OperationKeeps(s, cs[0]);
  }

  lemma NoOperations(s: State)
    requires InTransaction(s)
    ensures AllReady(s, []) && RunAll(s, []) == s && AllWrites(s, []) == [] && Reached(s, [], 0) == s
      && !Stale(s, [], 0)
    ensures CrashesTo(s.disk, s, 0, false)
  {
    hide InTransaction, Recoverable, IdsUpTo, Full;
    TransactionFacts(s);
    SettledRecoverable(s);
    IdsBelowNext(s);
  }

  lemma Boundary(j: int, n: int)
    requires n >= 1
    ensures 0 <= j <= n && j % n == 0 ==> j == 0 || j == n
    ensures (j - n) % n == j % n
  {
    if 0 <= j < n {
      assert j % n == j;
    }
    assert (j - n) % n == j % n by {
      Shift(j, n);
    }
  }

  lemma Shift(j: int, n: int)
    requires n >= 1
    ensures (j - n) % n == j % n
  {
    DivMod(j, n);
    DivMod(j - n, n);
    assert (j / n - 1) * n == j / n * n - n;
    SameRemainder(n, j / n - 1, j % n, (j - n) / n, (j - n) % n);
  }

  lemma DivMod(x: int, n: int)
    requires n >= 1
    ensures x == x / n * n + x % n && 0 <= x % n < n
  {
  }

  lemma SameRemainder(n: int, q: int, r: int, q': int, r': int)
    requires n >= 1 && q * n + r == q' * n + r' && 0 <= r < n && 0 <= r' < n
    ensures r == r'
  {
    if q > q' {
      Multiples(n, q, q');
    } else if q < q' {
      Multiples(n, q', q);
    }
  }

  lemma {:induction false} Multiples(n: int, a: int, b: int)
    requires n >= 1 && a > b
    ensures a * n >= b * n + n
    decreases a - b
  {
    assert a * n == (a - 1) * n + n;
    if a > b + 1 {
      Multiples(n, a - 1, b);
    }
  }

  /** The induction behind CrashAtomicity. */
  lemma {:induction false} CrashReaches(s: State, cs: seq<Change>, k: nat) returns (grown: nat)
    requires InTransaction(s) && AllReady(s, cs) && k <= |AllWrites(s, cs)|
    ensures s.disk.journal.Some? && grown <= PagesPer(s)
    ensures var d := ApplyAll(s.disk, AllWrites(s, cs)[..k]);
      && d.journal.Some? && |d.journal.value| >= |s.disk.journal.value|
      && var j := |d.journal.value| - |s.disk.journal.value|;
      && Full(Reached(s, cs, j))
      && (j % PagesPer(s) == 0 ==> CrashesTo(d, Reached(s, cs, j), grown, Stale(s, cs, k)))
    decreases |cs|
  {
    hide *;
    TransactionFacts(s);
    if cs == [] {
      NoOperations(s);
      ApplyNone(s.disk);
      assert AllWrites(s, cs)[..k] == [];
      grown := 0;
    } else {
      FirstStep(s, cs, 0, k);
      WritesSplit(s, cs, k);
      JournaledIn(s);
      OperationKeeps(s, cs[0]);
      var ws, s1, n := Run(s, cs[0]).writes, After(s, Run(s, cs[0])), PagesPer(s);
      var d := ApplyAll(s.disk, AllWrites(s, cs)[..k]);
      TransactionFacts(s1);
      if k < |ws| {
        var m;
        m, grown := CrashInFirst(s, cs[0], k);
        FirstStep(s, cs, m, k);
        Boundary(m, n);
        ReachedNothing(s1, cs[1..]);
        if m == n {
          grown := 0;
        }
      } else {
        grown := CrashReaches(s1, cs[1..], k - |ws|);
        var j := |d.journal.value| - |s.disk.journal.value|;
        FirstStep(s, cs, j, k);
        Boundary(j, n);
      }
    }
  }

  /** Inside a transaction, after a crash at any of its writes that leaves the journal at the end of an operation, as it
      always is with one-page records, opening the database succeeds and finds exactly the records after the operations
      in the journal, no page lost. No live id is above the next id, which itself is live exactly when the crash came
      between an addition's journal entries and its header write. */
  lemma CrashAtomicity(s: State, cs: seq<Change>, k: nat)
    requires InTransaction(s) && AllReady(s, cs) && k <= |AllWrites(s, cs)|
    ensures s.disk.journal.Some?
    ensures var d := ApplyAll(s.disk, AllWrites(s, cs)[..k]);
      && d.journal.Some? && |d.journal.value| >= |s.disk.journal.value|
      && var j := |d.journal.value| - |s.disk.journal.value|;
      && Coherent(Reached(s, cs, j))
      && (j % PagesPer(s) == 0 ==>
            && RecoversTo(d, Reached(s, cs, j))
            && |Reopened(d).disk.pages| <= |Reached(s, cs, j).disk.pages| + PagesPer(s)
            && Reopened(d).mem.header.recordSize == Reached(s, cs, j).mem.header.recordSize
            && Reached(s, cs, j).mem.header.nextRecordId
               == Reopened(d).mem.header.nextRecordId + (if Stale(s, cs, k) then 1 else 0)
            && IdsUpTo(Data(Reopened(d)), Reopened(d).mem.header.nextRecordId, Stale(s, cs, k)))
  {
    hide *;
    var grown := CrashReaches(s, cs, k);
    var d := ApplyAll(s.disk, AllWrites(s, cs)[..k]);
    var j := |d.journal.value| - |s.disk.journal.value|;
    FullFacts(Reached(s, cs, j));
    if j % PagesPer(s) == 0 {
      CrashesToRecovers(d, Reached(s, cs, j), grown, Stale(s, cs, k));
    }
  }

  lemma CrashesToRecovers(d: Disk, reached: State, grown: nat, stale: bool)
    requires Full(reached) && CrashesTo(d, reached, grown, stale)
    ensures RecoversTo(d, reached) && |Reopened(d).disk.pages| == |reached.disk.pages| + grown
    ensures Reopened(d).mem.header.recordSize == reached.mem.header.recordSize
    ensures IdsUpTo(Data(Reopened(d)), Reopened(d).mem.header.nextRecordId, stale)
    ensures reached.mem.header.nextRecordId == Reopened(d).mem.header.nextRecordId + if stale then 1 else 0
  {
    hide Full, Recoverable, IdsUpTo, Replayable, Open, Reopened, Coherent, NoneLost, Data;
    RecoverableRecovers(d, reached, grown);
  }

  // ---- From BeginTransaction to CommitTransaction ----

  /** The state that BeginTransaction leaves. */
  function Begun(s: State): State {
    After(s, Begin(s.mem))
  }

  lemma BeginStarts(s: State)
    requires Full(s)
    ensures InTransaction(Begun(s)) && Data(Begun(s)) == Data(s) && PagesPer(Begun(s)) == PagesPer(s)
    ensures Begun(s).disk == s.disk.(journal := Some([]), header := s.mem.header.(journalPending := true))
  {
    hide Runs, Owned, Count, Singles, DirectoryOf, Records, Allocator.Sound, ApplyAll;
    BeginEffect(s);
    assert Redo([], s.disk.pages) == s.disk.pages;
  }

  lemma BeginEffect(s: State)
    ensures Begin(s.mem).writes[..0] == [] && Begin(s.mem).writes[..1] == [ClearJournal] && |Begin(s.mem).writes| == 2
    ensures ApplyAll(s.disk, [ClearJournal]) == s.disk.(journal := Some([]))
    ensures Begun(s).disk == s.disk.(journal := Some([]), header := s.mem.header.(journalPending := true))
  {
    hide ApplyAll;
    ApplyOne(s.disk, ClearJournal);
    ApplyLast(s.disk, [ClearJournal], PutHeader(s.mem.header.(journalPending := true)));
  }

  lemma CommitEffect(s: State)
    ensures Commit(s.mem).writes[..0] == [] && Commit(s.mem).writes[..2] == Commit(s.mem).writes
      && |Commit(s.mem).writes| == 2
    ensures ApplyAll(s.disk, Commit(s.mem).writes[..1]) == s.disk.(header := s.mem.header.(journalPending := false))
    ensures ApplyAll(s.disk, Commit(s.mem).writes)
         == s.disk.(header := s.mem.header.(journalPending := false), journal := Some([]))
  {
    hide ApplyAll;
    ApplyOne(s.disk, PutHeader(s.mem.header.(journalPending := false)));
    assert Commit(s.mem).writes[..1] == [PutHeader(s.mem.header.(journalPending := false))];
    ApplyLast(s.disk, [PutHeader(s.mem.header.(journalPending := false))], ClearJournal);
  }

  /** Without a pending transaction the database opens as it is. */
  lemma OpensAsIs(d: Disk, s: State)
    requires Full(s) && d.pages == s.disk.pages && d.index == s.disk.index && d.free == s.disk.free
    requires d.leading == 2 && !d.header.journalPending
    requires d.header == s.mem.header.(nextRecordId := d.header.nextRecordId, journalPending := false)
    requires d.header.nextRecordId == s.disk.header.nextRecordId || d.header.nextRecordId == s.mem.header.nextRecordId
    ensures RecoversTo(d, s) && Full(Reopened(d))
  {
    hide Runs, Owned, Count, Singles, DirectoryOf, Records, Allocator.Sound;
    ApplyNone(d);
  }

  function TransactionWrites(s: State, cs: seq<Change>): seq<Write>
    requires InTransaction(Begun(s)) && AllReady(Begun(s), cs)
  {
    Begin(s.mem).writes + (AllWrites(Begun(s), cs) + Commit(RunAll(Begun(s), cs).mem).writes)
  }

  /** What a crash after the first `k` writes of a transaction leaves: the records before it, those after it, or those
      after the operations in the journal. */
  function CrashOutcome(s: State, cs: seq<Change>, k: nat): State
    requires InTransaction(Begun(s)) && AllReady(Begun(s), cs) && k <= |TransactionWrites(s, cs)|
  {
    if k < 2 then s
    else if k <= 2 + |AllWrites(Begun(s), cs)| then
      Reached(Begun(s), cs, JournalLength(ApplyAll(s.disk, TransactionWrites(s, cs)[..k])))
    else RunAll(Begun(s), cs)
  }

  function JournalLength(d: Disk): nat {
    if d.journal.Some? then |d.journal.value| else 0
  }

  lemma {:induction false} AllWritesEffect(s: State, cs: seq<Change>)
    requires InTransaction(s) && AllReady(s, cs)
    ensures ApplyAll(s.disk, AllWrites(s, cs)) == RunAll(s, cs).disk
    decreases |cs|
  {
    hide InTransaction, Run, ApplyAll, Ready, Coherent;
    if cs == [] {
      ApplyNone(s.disk);
    } else {
      JournaledIn(s);
      ReadyFirst(s, cs);
      OperationKeeps(s, cs[0]);
      AllWritesEffect(After(s, Run(s, cs[0])), cs[1..]);
      ApplyConcat(s.disk, Run(s, cs[0]).writes, AllWrites(After(s, Run(s, cs[0])), cs[1..]));
    }
  }

  lemma TransactionPrefix(s: State, cs: seq<Change>, k: nat)
    requires InTransaction(Begun(s)) && AllReady(Begun(s), cs) && k <= |TransactionWrites(s, cs)|
    ensures var w, t := |AllWrites(Begun(s), cs)|, RunAll(Begun(s), cs);
      && (k < 2 ==>
         ApplyAll(s.disk, TransactionWrites(s, cs)[..k])
           == s.disk.(journal := if k == 0 then s.disk.journal else Some([])))
      && (2 <= k <= 2 + w ==>
            ApplyAll(s.disk, TransactionWrites(s, cs)[..k])
              == ApplyAll(Begun(s).disk, AllWrites(Begun(s), cs)[..k - 2]))
      && (k > 2 + w ==>
            ApplyAll(s.disk, TransactionWrites(s, cs)[..k])
            == t.disk.(header := t.mem.header.(journalPending := false),
                       journal := if k == 3 + w then t.disk.journal else Some([])))
  {
    hide ApplyAll, AllWrites, RunAll, InTransaction, Begin, Commit, AllReady;
    var b, a, t := Begin(s.mem).writes, AllWrites(Begun(s), cs), RunAll(Begun(s), cs);
    var c := Commit(t.mem).writes;
    BeginEffect(s);
    CommitEffect(t);
    ApplyNone(s.disk);
    if k < 2 {
      assert TransactionWrites(s, cs)[..k] == b[..k];
    } else if k <= 2 + |a| {
      assert TransactionWrites(s, cs)[..k] == b + a[..k - 2];
      ApplyConcat(s.disk, b, a[..k - 2]);
    } else {
      assert TransactionWrites(s, cs)[..k] == b + (a + c[..k - 2 - |a|]);
      ApplyConcat(s.disk, b, a + c[..k - 2 - |a|]);
      ApplyConcat(Begun(s).disk, a, c[..k - 2 - |a|]);
      AllWritesEffect(Begun(s), cs);
    }
  }

  /** From any state between transactions: a crash anywhere from BeginTransaction to CommitTransaction that leaves the
      journal at the end of an operation is recovered to the records before the transaction, after it, or after the
      operations in the journal. */
  lemma TransactionCrash(s: State, cs: seq<Change>, k: nat)
    requires Full(s) && !s.mem.header.journalPending && InTransaction(Begun(s)) && AllReady(Begun(s), cs)
    requires k <= |TransactionWrites(s, cs)|
    requires 2 <= k <= 2 + |AllWrites(Begun(s), cs)| ==>
      JournalLength(ApplyAll(s.disk, TransactionWrites(s, cs)[..k])) % PagesPer(s) == 0
    ensures Coherent(CrashOutcome(s, cs, k))
    ensures RecoversTo(ApplyAll(s.disk, TransactionWrites(s, cs)[..k]), CrashOutcome(s, cs, k))
  {
    hide *;
    BeginStarts(s);
    TransactionPrefix(s, cs, k);
    CrashOutcomeIs(s, cs, k);
    var d, w, t := ApplyAll(s.disk, TransactionWrites(s, cs)[..k]), |AllWrites(Begun(s), cs)|, RunAll(Begun(s), cs);
    FullFacts(s);
    TransactionFacts(t);
    FullFacts(t);
    if k < 2 {
      HeaderUnpending(s);
      OpensAsIs(d, s);
    } else if k <= 2 + w {
      CrashAtomicity(Begun(s), cs, k - 2);
    } else {
      OpensAsIs(d, t);
    }
  }

  lemma HeaderUnpending(s: State)
    requires Full(s) && !s.mem.header.journalPending
    ensures s.disk.header == s.mem.header.(nextRecordId := s.disk.header.nextRecordId, journalPending := false)
    ensures s.disk.leading == 2
  {
  }

  lemma CrashOutcomeIs(s: State, cs: seq<Change>, k: nat)
    requires InTransaction(Begun(s)) && AllReady(Begun(s), cs) && k <= |TransactionWrites(s, cs)|
    ensures var b, w, d := Begun(s), |AllWrites(Begun(s), cs)|, ApplyAll(s.disk, TransactionWrites(s, cs)[..k]);
      && (k < 2 ==> CrashOutcome(s, cs, k) == s)
      && (k > 2 + w ==> CrashOutcome(s, cs, k) == RunAll(b, cs))
      && (2 <= k <= 2 + w && d.journal.Some? ==>
            CrashOutcome(s, cs, k) == Reached(b, cs, |d.journal.value|) && JournalLength(d) == |d.journal.value|)
  {
    hide InTransaction, AllReady, AllWrites, RunAll, Reached, ApplyAll, Begun, Full;
  }

  /** With records of one page every crash during a transaction is recovered, without a condition on where it comes. */
  lemma OnePageTransactionCrash(s: State, cs: seq<Change>, k: nat)
    requires Full(s) && !s.mem.header.journalPending && PagesPer(s) == 1
    requires InTransaction(Begun(s)) && AllReady(Begun(s), cs) && k <= |TransactionWrites(s, cs)|
    ensures Coherent(CrashOutcome(s, cs, k))
    ensures RecoversTo(ApplyAll(s.disk, TransactionWrites(s, cs)[..k]), CrashOutcome(s, cs, k))
  {
    hide *;
    TransactionCrash(s, cs, k);
  }
}
