/**
 * Any number of runners against one database, interleaved query by query, each of
 * which may fail at any query or lose its connection between any two.
 */
module Interleaving {
  import opened Text
  import opened Scanner
  import opened Stripper
  import opened SqlStatements
  import opened Checksum
  import opened Database
  import opened Harmless
  import opened Runner
  import opened RunLaws

  /** Where a process stands in `main`. */
  datatype Pc =
    | Waiting    // before the advisory lock
    | Locked     // lock held, ledger not read yet
    | Ready      // between two migrations
    | Working     // inside the transaction of migration `k`, `j` statements done
    | Inserted   // ledger row inserted, not committed
    | Aborting   // a query failed, rollback still to be sent
    | Releasing  // in `finally`
    | Stopped

  datatype Process = Process(dir: seq<File>, ack: string, pc: Pc, todo: seq<File>, k: nat, j: nat, open: Open)

  datatype System = System(means: Reading, base: seq<Row>, commits: seq<Transaction>, lock: Option<nat>,
                           procs: seq<Process>)

  /** What process `r` does next; `fails` is the answer of the database to its query. */
  datatype Action =
    | Acquire(r: nat)
    | ReadLedger(r: nat)
    | Proceed(r: nat)
    | Exec(r: nat, fails: bool)
    | Insert(r: nat, fails: bool)
    | Finish(r: nat, fails: bool)
    | Undo(r: nat)
    | Release(r: nat)
    | Crash(r: nat)

  function Body(means: Reading, f: File): (acts: seq<Act>) {
    Asks(means, Strip(f.raw))
  }

  function Ledger(s: System): (rows: seq<Row>) {
    LedgerRows(s.base, s.commits)
  }

  function Put(s: System, r: nat, p: Process): (s': System)
    requires r < |s.procs|
  {
    s.(procs := s.procs[r := p])
  }

  /** Process `r` has left its session as `q`, and continues as `p`. */
  function PutSession(s: System, r: nat, p: Process, q: Session): (s': System)
    requires r < |s.procs|
  {
    s.(commits := q.commits, procs := s.procs[r := p.(open := q.open)])
  }

  function Unlocked(s: System, r: nat): (lock: Option<nat>) {
    if s.lock == Some(r) then None else s.lock
  }

  /** One step of the system; an action that is not enabled changes nothing. */
  function Next(hash: string -> string, s: System, a: Action): (s': System) {
    if a.r >= |s.procs| then s else
      var r := a.r;
      var p := s.procs[r];
      var q := Session(s.commits, p.open);
      match a
      case Acquire(_) =>
        if p.pc == Waiting && s.lock == None then Put(s, r, p.(pc := Locked)).(lock := Some(r)) else s
      case ReadLedger(_) =>
        if p.pc != Locked then s
        else if exists x :: 0 <= x < |p.dir| && Drifts(hash, Ledger(s), p.dir[x]) then Put(s, r, p.(pc := Releasing))
        else Put(s, r, p.(pc := Ready, todo := PendingFiles(p.dir, Ledger(s)), k := 0))
      case Proceed(_) =>
        if p.pc != Ready then s
        else if p.k >= |p.todo| || MustHold(ToMigration(hash, p.todo[p.k]), p.ack) then Put(s, r, p.(pc := Releasing))
        else PutSession(s, r, p.(pc := Working, j := 0), ExecTxn(q, Begin))
      case Exec(_, fails) =>
        if p.pc != Working || p.k >= |p.todo| || p.j >= |Body(s.means, p.todo[p.k])| then s
        else if fails then PutSession(s, r, p.(pc := Aborting), FailQuery(q))
        else PutSession(s, r, p.(j := p.j + 1), ExecIn(q, Body(s.means, p.todo[p.k]), p.j))
      case Insert(_, fails) =>
        if p.pc != Working || p.k >= |p.todo| || p.j < |Body(s.means, p.todo[p.k])| then s
        else if fails || Collides(s.base, q, p.todo[p.k].name) then Put(s, r, p.(pc := Aborting))
        else PutSession(s, r, p.(pc := Inserted),
                        InsertRow(q, Row(p.todo[p.k].name, MigrationChecksum(hash, p.todo[p.k].raw))))
      case Finish(_, fails) =>
        if p.pc != Inserted then s
        else if fails && !p.open.NoTxn? then Put(s, r, p.(pc := Aborting))
        else PutSession(s, r, p.(pc := Ready, k := p.k + 1), ExecTxn(q, Commit))
      case Undo(_) =>
        if p.pc != Aborting then s else PutSession(s, r, p.(pc := Releasing), ExecTxn(q, Rollback))
      case Release(_) =>
        if p.pc != Releasing then s else Put(s, r, p.(pc := Stopped)).(lock := Unlocked(s, r))
      case Crash(_) =>
        if p.pc == Stopped then s else Put(s, r, p.(pc := Stopped, open := NoTxn)).(lock := Unlocked(s, r))
  }

  function Reach(hash: string -> string, s: System, actions: seq<Action>): (s': System)
    decreases |actions|
  {
    if actions == [] then s else Next(hash, Reach(hash, s, actions[..|actions| - 1]), actions[|actions| - 1])
  }

  // ----- the invariant

  predicate Critical(pc: Pc) {
    pc != Waiting && pc != Stopped
  }

  ghost predicate DistinctRows(rows: seq<Row>) {
    forall i, j :: 0 <= i < j < |rows| ==> rows[i].name != rows[j].name
  }

  ghost predicate Checksummed(rows: seq<Row>) {
    forall i :: 0 <= i < |rows| ==> rows[i].checksum != ""
  }

  function RowOf(hash: string -> string, f: File): (row: Row) {
    Row(f.name, MigrationChecksum(hash, f.raw))
  }

  /** What is still to do is not in the ledger. */
  ghost predicate TodoOpen(s: System, p: Process) {
    && p.k <= |p.todo| && DistinctNames(p.todo)
    && (forall x :: 0 <= x < |p.todo| ==> p.todo[x] in p.dir)
    && (forall x :: p.k <= x < |p.todo| ==> !HasRow(Ledger(s), p.todo[x].name))
  }

  ghost predicate ProcessOk(hash: string -> string, s: System, p: Process) {
    match p.pc
    case Ready => TodoOpen(s, p) && p.open == NoTxn
    case Working =>
      && TodoOpen(s, p) && p.k < |p.todo| && !MustHold(ToMigration(hash, p.todo[p.k]), p.ack)
      && (p.open.NoTxn? || p.open.txn.rows == [])
    case Inserted =>
      && p.k < |p.todo|
      && if p.open == NoTxn then TodoOpen(s, p.(k := p.k + 1))
         else TodoOpen(s, p) && p.open.txn.rows == [RowOf(hash, p.todo[p.k])]
    case Aborting => true
    case _ => p.open == NoTxn
  }

  ghost predicate WellFormed(hash: string -> string, s: System) {
    NeverEmpty(hash) && forall r :: 0 <= r < |s.procs| ==> DistinctNames(s.procs[r].dir)
  }

  /** What holds whatever the bodies do to the transaction. */
  ghost predicate Inv(hash: string -> string, s: System) {
    && (forall r :: 0 <= r < |s.procs| ==> (Critical(s.procs[r].pc) <==> s.lock == Some(r)))
    && (forall r :: 0 <= r < |s.procs| ==> ProcessOk(hash, s, s.procs[r]))
    && DistinctRows(Ledger(s)) && Checksummed(Ledger(s))
  }

  ghost predicate Initial(s: System) {
    && s.commits == [] && s.lock == None
    && (forall r :: 0 <= r < |s.procs| ==> s.procs[r].pc == Waiting && s.procs[r].open == NoTxn)
    && DistinctRows(s.base) && Checksummed(s.base)
  }

  lemma {:induction false} InitialInv(hash: string -> string, s: System)
    requires Initial(s)
    ensures Inv(hash, s) && Whole(hash, s)
  {
    hide Asks, Strip;
    assert Ledger(s) == s.base;
  }

  // ----- each step keeps the invariant

  /**
   * How many of its planned files a process has had recorded: a row that was inserted outside a
   * block is committed.
   */
  function Position(p: Process): (k: nat) {
    if p.pc == Inserted && p.open == NoTxn then p.k + 1 else p.k
  }

  /** The ledger has grown by the row of the file that process `r` is at. */
  ghost predicate RecordsNext(hash: string -> string, s: System, s': System, r: nat) {
    && r < |s.procs| == |s'.procs| && s.procs[r].pc in {Working, Inserted} && s.procs[r].k < |s.procs[r].todo|
    && Position(s.procs[r]) == s.procs[r].k
    && Ledger(s') == Ledger(s) + [RowOf(hash, s.procs[r].todo[s.procs[r].k])]
    && s'.procs[r].todo == s.procs[r].todo && Position(s'.procs[r]) == s.procs[r].k + 1
  }

  /** The ledger has not changed, or has grown by that row. */
  ghost predicate Records(hash: string -> string, s: System, s': System, r: nat) {
    Ledger(s') == Ledger(s) || RecordsNext(hash, s, s', r)
  }

  /** Processes other than `r` are outside the critical section while `r` is inside, so they notice nothing. */
  lemma {:induction false} OthersUnaffected(hash: string -> string, s: System, s': System, r: nat)
    requires Inv(hash, s) && r < |s.procs| == |s'.procs|
    requires forall x :: 0 <= x < |s.procs| && x != r ==> s'.procs[x] == s.procs[x]
    requires Critical(s.procs[r].pc) || Ledger(s') == Ledger(s)
    ensures forall x :: 0 <= x < |s.procs| && x != r ==> ProcessOk(hash, s', s'.procs[x])
  {
    hide HasRow, LedgerRows, DistinctNames, MustHold, ToMigration, RowOf;
  }

  /** A step of `r` that leaves `r`, the lock and the ledger in order keeps the invariant. */
  lemma {:induction false} StepOf(hash: string -> string, s: System, s': System, r: nat)
    requires Inv(hash, s) && r < |s.procs| == |s'.procs|
    requires forall x :: 0 <= x < |s.procs| && x != r ==> s'.procs[x] == s.procs[x]
    requires s'.lock == s.lock ==> Critical(s'.procs[r].pc) == Critical(s.procs[r].pc)
    requires s'.lock != s.lock ==>
      || (s.lock == None && s'.lock == Some(r) && Critical(s'.procs[r].pc))
      || (s.lock == Some(r) && s'.lock == None && !Critical(s'.procs[r].pc))
    requires ProcessOk(hash, s', s'.procs[r])
    requires || Ledger(s') == Ledger(s)
             || (Critical(s.procs[r].pc) && DistinctRows(Ledger(s')) && Checksummed(Ledger(s')))
    ensures Inv(hash, s')
  {
    hide ProcessOk, LedgerRows, DistinctRows, Checksummed;
    OthersUnaffected(hash, s, s', r);
  }

  lemma {:induction false} AcquireKeeps(hash: string -> string, s: System, r: nat)
    requires Inv(hash, s)
    ensures Inv(hash, Next(hash, s, Acquire(r)))
  {
    hide TodoOpen, LedgerRows, DistinctRows;
    var s' := Next(hash, s, Acquire(r));
    if s' != s {
      StepOf(hash, s, s', r);
    }
  }

  lemma {:induction false} ReadLedgerKeeps(hash: string -> string, s: System, r: nat)
    requires WellFormed(hash, s) && Inv(hash, s)
    ensures Inv(hash, Next(hash, s, ReadLedger(r)))
  {
    hide LedgerRows, Drifts, Recorded;
    var s' := Next(hash, s, ReadLedger(r));
    if r < |s.procs| && s.procs[r].pc == Locked {
      if s'.procs[r].pc == Ready {
        OpenAfterRead(s, s.procs[r].dir);
      }
      StepOf(hash, s, s', r);
    }
  }

  lemma {:induction false} OpenAfterRead(s: System, dir: seq<File>)
    requires DistinctNames(dir) && Checksummed(Ledger(s))
    ensures var fs := PendingFiles(dir, Ledger(s));
            && DistinctNames(fs)
            && (forall x :: 0 <= x < |fs| ==> fs[x] in dir)
            && (forall x :: 0 <= x < |fs| ==> !HasRow(Ledger(s), fs[x].name))
  {
    hide Recorded, HasRow;
    var fs := PendingFiles(dir, Ledger(s));
    PendingAreDistinct(dir, Ledger(s));
    forall x | 0 <= x < |fs|
      ensures fs[x] in dir && !HasRow(Ledger(s), fs[x].name)
    {
      assert fs[x] in fs;
      if HasRow(Ledger(s), fs[x].name) {
        RecordedIsARow(Ledger(s), fs[x].name);
      }
    }
  }

  lemma {:induction false} ProceedKeeps(hash: string -> string, s: System, r: nat)
    requires Inv(hash, s)
    ensures Inv(hash, Next(hash, s, Proceed(r)))
  {
    hide LedgerRows, MustHold, DistinctNames, HasRow, Body, ToMigration;
    var s' := Next(hash, s, Proceed(r));
    if r < |s.procs| && s.procs[r].pc == Ready {
      StepOf(hash, s, s', r);
    }
  }

  /** One statement of any body, or its failure, writes no ledger row. */
  lemma {:induction false} ExecRecordsNothing(base: seq<Row>, q: Session, acts: seq<Act>, j: nat)
    requires j < |acts| && (q.open.NoTxn? || q.open.txn.rows == [])
    ensures LedgerRows(base, ExecIn(q, acts, j).commits) == LedgerRows(base, q.commits)
    ensures var o := ExecIn(q, acts, j).open; o.NoTxn? || o.txn.rows == []
    ensures FailQuery(q).commits == q.commits
  {
    hide LedgerRows, ExecAct, EndQuery;
    ActAddsNoRow(q.commits, q, acts[j]);
    ActAddsNoRow(q.commits, ExecAct(q, acts[j]), acts[j]);
    SameLedger(base, q.commits, ExecIn(q, acts, j));
  }

  lemma {:induction false} ExecKeeps(hash: string -> string, s: System, r: nat, fails: bool)
    requires Inv(hash, s)
    ensures Inv(hash, Next(hash, s, Exec(r, fails)))
    ensures Ledger(Next(hash, s, Exec(r, fails))) == Ledger(s)
  {
    hide LedgerRows, DistinctNames, HasRow, Body, ExecIn, FailQuery, MustHold, ToMigration;
    var s' := Next(hash, s, Exec(r, fails));
    if r < |s.procs| && s.procs[r].pc == Working && s.procs[r].j < |Body(s.means, s.procs[r].todo[s.procs[r].k])| {
      var p := s.procs[r];
      ExecRecordsNothing(s.base, Session(s.commits, p.open), Body(s.means, p.todo[p.k]), p.j);
      StepOf(hash, s, s', r);
    }
  }

  /** The ledger after one more row. */
  lemma {:induction false} LedgerGrows(rows: seq<Row>, row: Row)
    requires DistinctRows(rows) && Checksummed(rows) && !HasRow(rows, row.name) && row.checksum != ""
    ensures DistinctRows(rows + [row]) && Checksummed(rows + [row])
    ensures forall name :: HasRow(rows + [row], name) <==> HasRow(rows, name) || name == row.name
  {
    assert forall i :: 0 <= i < |rows| ==> rows[i].name != row.name;
    forall name
      ensures HasRow(rows + [row], name) <==> HasRow(rows, name) || name == row.name
    {
      HasRowAppend(rows, [row], name);
      assert HasRow([row], name) <==> [row][0].name == name;
    }
  }

  /** The step that records a file keeps the invariant: its name had no row. */
  lemma {:induction false} RecordStep(hash: string -> string, s: System, s': System, r: nat)
    requires WellFormed(hash, s) && Inv(hash, s) && RecordsNext(hash, s, s', r) && TodoOpen(s, s.procs[r])
    requires s'.lock == s.lock && s'.procs[r].dir == s.procs[r].dir && s'.procs[r].open == NoTxn
    requires forall x :: 0 <= x < |s.procs| && x != r ==> s'.procs[x] == s.procs[x]
    requires s'.procs[r].pc in {Inserted, Ready}
    ensures Inv(hash, s')
  {
    hide LedgerRows, HasRow, DistinctRows, Checksummed, MigrationChecksum, MustHold, ToMigration;
    var p := s.procs[r];
    ChecksumNonEmpty(hash, p.todo[p.k].raw);
    LedgerGrows(Ledger(s), RowOf(hash, p.todo[p.k]));
    StepOf(hash, s, s', r);
  }

  /** Where an inserted row stands: in the ledger at once, or in the open block. */
  lemma {:induction false} InsertedWhere(base: seq<Row>, q: Session, row: Row)
    requires q.open.NoTxn? || q.open.txn.rows == []
    ensures var i := InsertRow(q, row);
            if i.open.NoTxn? then LedgerRows(base, i.commits) == LedgerRows(base, q.commits) + [row]
            else i.commits == q.commits && i.open.txn.rows == [row]
  {
    if q.open.InBlock? {
      assert q.open.txn.rows + [row] == [row];
    } else {
      var t := if q.open.NoTxn? then Transaction([], [row]) else q.open.txn.(rows := q.open.txn.rows + [row]);
      RowsOfAppend(q.commits, t);
      assert t.rows == [row];
    }
  }

  lemma {:induction false} InsertKeeps(hash: string -> string, s: System, r: nat, fails: bool)
    requires WellFormed(hash, s) && Inv(hash, s)
    ensures var s' := Next(hash, s, Insert(r, fails)); Inv(hash, s') && Records(hash, s, s', r)
  {
    hide LedgerRows, HasRow, Body, MigrationChecksum, InsertRow, WellFormed, MustHold, ToMigration, DistinctNames,
         Collides, DistinctRows, Checksummed;
    var s' := Next(hash, s, Insert(r, fails));
    if r < |s.procs| && s.procs[r].pc == Working && s'.procs[r].pc != Working {
      var p := s.procs[r];
      InsertedWhere(s.base, Session(s.commits, p.open), RowOf(hash, p.todo[p.k]));
      if s'.procs[r].pc == Inserted && s'.procs[r].open == NoTxn {
        RecordStep(hash, s, s', r);
      } else {
        StepOf(hash, s, s', r);
      }
    }
  }

  lemma {:induction false} UndoKeeps(hash: string -> string, s: System, r: nat)
    requires Inv(hash, s)
    ensures Inv(hash, Next(hash, s, Undo(r))) && Ledger(Next(hash, s, Undo(r))) == Ledger(s)
  {
    hide LedgerRows, TodoOpen;
    var s' := Next(hash, s, Undo(r));
    if r < |s.procs| && s.procs[r].pc == Aborting {
      StepOf(hash, s, s', r);
    }
  }

  lemma {:induction false} ReleaseKeeps(hash: string -> string, s: System, r: nat)
    requires Inv(hash, s)
    ensures Inv(hash, Next(hash, s, Release(r)))
  {
    hide LedgerRows, TodoOpen;
    var s' := Next(hash, s, Release(r));
    if r < |s.procs| && s.procs[r].pc == Releasing {
      StepOf(hash, s, s', r);
    }
  }

  lemma {:induction false} CrashKeeps(hash: string -> string, s: System, r: nat)
    requires Inv(hash, s)
    ensures Inv(hash, Next(hash, s, Crash(r)))
  {
    hide LedgerRows, TodoOpen;
    var s' := Next(hash, s, Crash(r));
    if r < |s.procs| && s.procs[r].pc != Stopped {
      StepOf(hash, s, s', r);
    }
  }

  /** `COMMIT` of the transaction that holds the row. */
  lemma {:induction false} CommitRecords(base: seq<Row>, q: Session, row: Row)
    requires !q.open.NoTxn? && q.open.txn.rows == [row]
    ensures ExecTxn(q, Commit) == Session(q.commits + [q.open.txn], NoTxn)
    ensures LedgerRows(base, ExecTxn(q, Commit).commits) == LedgerRows(base, q.commits) + [row]
  {
    RowsOfAppend(q.commits, q.open.txn);
  }

  lemma {:induction false} FinishKeeps(hash: string -> string, s: System, r: nat, fails: bool)
    requires WellFormed(hash, s) && Inv(hash, s)
    ensures var s' := Next(hash, s, Finish(r, fails)); Inv(hash, s') && Records(hash, s, s', r)
  {
    hide LedgerRows, HasRow, MigrationChecksum, DistinctRows, Checksummed, WellFormed, MustHold, ToMigration,
         DistinctNames, ExecTxn;
    var s' := Next(hash, s, Finish(r, fails));
    if r < |s.procs| && s.procs[r].pc == Inserted {
      var p := s.procs[r];
      NothingToCommit(s.commits);
      if s'.procs[r].pc == Ready && p.open != NoTxn {
        CommitRecords(s.base, Session(s.commits, p.open), RowOf(hash, p.todo[p.k]));
        RecordStep(hash, s, s', r);
      } else {
        StepOf(hash, s, s', r);
      }
    }
  }

  lemma {:induction false} NothingToCommit(c: seq<Transaction>)
    ensures ExecTxn(Session(c, NoTxn), Commit) == Session(c, NoTxn)
  {
  }

  /** Whatever the bodies do, each step keeps the invariant, and adds to the ledger nothing or the next row. */
  lemma {:induction false} StepKeepsInv(hash: string -> string, s: System, a: Action)
    requires WellFormed(hash, s) && Inv(hash, s)
    ensures Inv(hash, Next(hash, s, a)) && WellFormed(hash, Next(hash, s, a)) && Records(hash, s, Next(hash, s, a), a.r)
  {
    hide Inv, RecordsNext;
    StepKeepsDirs(hash, s, a);
    match a
    case Acquire(r) => AcquireKeeps(hash, s, r);
    case ReadLedger(r) => ReadLedgerKeeps(hash, s, r);
    case Proceed(r) => ProceedKeeps(hash, s, r); ProceedCommits(hash, s, r);
    case Exec(r, fails) => ExecKeeps(hash, s, r, fails);
    case Insert(r, fails) => InsertKeeps(hash, s, r, fails);
    case Finish(r, fails) => FinishKeeps(hash, s, r, fails);
    case Undo(r) => UndoKeeps(hash, s, r);
    case Release(r) => ReleaseKeeps(hash, s, r);
    case Crash(r) => CrashKeeps(hash, s, r);
  }

  lemma {:induction false} ProceedCommits(hash: string -> string, s: System, r: nat)
    requires Inv(hash, s)
    ensures Next(hash, s, Proceed(r)).commits == s.commits && Next(hash, s, Proceed(r)).base == s.base
  {
    hide MustHold, ToMigration, LedgerRows, TodoOpen;
  }

  lemma {:induction false} StepKeepsDirs(hash: string -> string, s: System, a: Action)
    ensures var s' := Next(hash, s, a);
            && |s'.procs| == |s.procs| && s'.base == s.base && s'.means == s.means
            && forall x :: 0 <= x < |s.procs| ==> s'.procs[x].dir == s.procs[x].dir && s'.procs[x].ack == s.procs[x].ack
  {
    hide Asks, Strip, MustHold, PendingFiles, Drifts, Collides, ExecIn, ExecTxn, InsertRow, FailQuery;
  }

  lemma {:induction false} StepsKeepInv(hash: string -> string, s: System, actions: seq<Action>)
    requires WellFormed(hash, s) && Inv(hash, s)
    ensures Inv(hash, Reach(hash, s, actions)) && WellFormed(hash, Reach(hash, s, actions))
    decreases |actions|
  {
    hide Inv, WellFormed, Next, Records;
    if actions != [] {
      StepsKeepInv(hash, s, actions[..|actions| - 1]);
      StepKeepsInv(hash, Reach(hash, s, actions[..|actions| - 1]), actions[|actions| - 1]);
    }
  }

  // ----- whole commits

  /** `f` can still be carried out by `p`: it is not recorded, and need not be held. */
  ghost predicate Executable(hash: string -> string, s: System, p: Process, f: File) {
    f in p.dir && Recorded(Ledger(s), f.name) == "" && !MustHold(ToMigration(hash, f), p.ack)
  }

  ghost predicate ExecutablesHarmless(hash: string -> string, s: System) {
    forall r, f :: 0 <= r < |s.procs| && Executable(hash, s, s.procs[r], f) ==> IsHarmless(Body(s.means, f))
  }

  /** The committed transaction is all the work of one file of some process, with its ledger row. */
  ghost predicate IsWholeFile(hash: string -> string, s: System, t: Transaction) {
    exists r, f :: 0 <= r < |s.procs| && f in s.procs[r].dir && t == Unit(s.means, ToMigration(hash, f))
  }

  ghost predicate ProcessWhole(hash: string -> string, s: System, p: Process) {
    match p.pc
    case Working =>
      p.k < |p.todo| && p.j <= |Body(s.means, p.todo[p.k])| && p.open == OpenAt(Body(s.means, p.todo[p.k]), p.j)
    case Inserted =>
      p.k < |p.todo| && (p.open == NoTxn || p.open == InBlock(Unit(s.means, ToMigration(hash, p.todo[p.k]))))
    case _ => true
  }

  /** Every commit is a whole file, and every open transaction is on the way to one. */
  ghost predicate Whole(hash: string -> string, s: System) {
    && (forall r :: 0 <= r < |s.procs| ==> ProcessWhole(hash, s, s.procs[r]))
    && (forall i :: 0 <= i < |s.commits| ==> IsWholeFile(hash, s, s.commits[i]))
  }

  /** The step commits nothing, or all the work of the file that `r` is at, with its row. */
  ghost predicate CommitsWhole(hash: string -> string, s: System, s': System, r: nat) {
    || s'.commits == s.commits
    || (r < |s.procs| && s.procs[r].k < |s.procs[r].todo| &&
        s'.commits == s.commits + [Unit(s.means, ToMigration(hash, s.procs[r].todo[s.procs[r].k]))])
  }

  lemma {:induction false} WholeFilesStay(hash: string -> string, s: System, s': System, i: nat)
    requires |s.procs| == |s'.procs| && forall x :: 0 <= x < |s.procs| ==> s'.procs[x].dir == s.procs[x].dir
    requires s'.means == s.means && i < |s.commits| && IsWholeFile(hash, s, s.commits[i])
    ensures IsWholeFile(hash, s', s.commits[i])
  {
    hide Unit, ToMigration;
  }

  lemma {:induction false} CommitsStayWhole(hash: string -> string, s: System, s': System, r: nat)
    requires r < |s.procs| == |s'.procs| && forall x :: 0 <= x < |s.procs| ==> s'.procs[x].dir == s.procs[x].dir
    requires forall i :: 0 <= i < |s.commits| ==> IsWholeFile(hash, s, s.commits[i])
    requires s'.means == s.means && CommitsWhole(hash, s, s', r)
    requires s'.commits != s.commits ==> s.procs[r].todo[s.procs[r].k] in s.procs[r].dir
    ensures forall i :: 0 <= i < |s'.commits| ==> IsWholeFile(hash, s', s'.commits[i])
  {
    hide Unit, ToMigration, IsWholeFile;
    forall i | 0 <= i < |s'.commits|
      ensures IsWholeFile(hash, s', s'.commits[i])
    {
      if i < |s.commits| {
        WholeFilesStay(hash, s, s', i);
        assert s'.commits[i] == s.commits[i];
      } else {
        TheUnit(hash, s', r, s.procs[r].todo[s.procs[r].k]);
      }
    }
  }

  lemma {:induction false} TheUnit(hash: string -> string, s: System, r: nat, f: File)
    requires r < |s.procs| && f in s.procs[r].dir
    ensures IsWholeFile(hash, s, Unit(s.means, ToMigration(hash, f)))
  {
    hide Unit, ToMigration;
  }

  lemma {:induction false} StartOfBody(body: seq<Act>)
    ensures OpenAt(body, 0) == InBlock(NOTHING)
  {
    assert body[..0] == [];
  }

  /** A failing statement commits nothing. */
  lemma {:induction false} NotImplicitYet(c: seq<Transaction>, o: Open)
    ensures FailQuery(Session(c, o)).commits == c
  {
  }

  /** A body that is being carried out is harmless. */
  lemma {:induction false} BodyOfWorking(hash: string -> string, s: System, r: nat)
    requires ExecutablesHarmless(hash, s) && Inv(hash, s) && r < |s.procs| && s.procs[r].pc == Working
    ensures s.procs[r].k < |s.procs[r].todo| && IsHarmless(Body(s.means, s.procs[r].todo[s.procs[r].k]))
  {
    hide Body, IsHarmless, LedgerRows, HasRow, MustHold, ToMigration, DistinctNames, DistinctRows, Checksummed;
    var p := s.procs[r];
    NoRowNoRecord(Ledger(s), p.todo[p.k].name);
    assert Executable(hash, s, p, p.todo[p.k]);
  }

  lemma {:induction false} NoRowNoRecord(rows: seq<Row>, name: string)
    requires !HasRow(rows, name)
    ensures Recorded(rows, name) == ""
    decreases |rows|
  {
    if rows != [] {
      assert forall i :: 0 <= i < |rows| ==> rows[i].name != name;
      NoRowNoRecord(rows[..|rows| - 1], name);
    }
  }

  /** A step of `r` in or at the end of a harmless body. */
  lemma {:induction false} WorkingWhole(hash: string -> string, s: System, a: Action)
    requires a.r < |s.procs| && s.procs[a.r].pc == Working && s.procs[a.r].k < |s.procs[a.r].todo|
    requires IsHarmless(Body(s.means, s.procs[a.r].todo[s.procs[a.r].k])) && ProcessWhole(hash, s, s.procs[a.r])
    ensures var s' := Next(hash, s, a);
            && |s'.procs| == |s.procs| && ProcessWhole(hash, s', s'.procs[a.r]) && CommitsWhole(hash, s, s', a.r)
  {
    hide Asks, Strip, HasRow, LedgerRows, OpenAt, ExecIn, MigrationChecksum, IsHarmless, Collides;
    var p := s.procs[a.r];
    var body, m := Body(s.means, p.todo[p.k]), ToMigration(hash, p.todo[p.k]);
    if p.j < |body| {
      HarmlessStep(s.commits, body, p.j);
      NotImplicitYet(s.commits, p.open);
    } else {
      HarmlessEnd(body);
      assert [] + [Row(m.name, m.checksum)] == [Row(m.name, m.checksum)];
    }
  }

  lemma {:induction false} OtherWhole(hash: string -> string, s: System, a: Action)
    requires Inv(hash, s) && a.r < |s.procs| && s.procs[a.r].pc != Working && ProcessWhole(hash, s, s.procs[a.r])
    ensures var s' := Next(hash, s, a);
            && |s'.procs| == |s.procs| && ProcessWhole(hash, s', s'.procs[a.r]) && CommitsWhole(hash, s, s', a.r)
  {
    hide Body, HasRow, LedgerRows, OpenAt, ExecIn, MigrationChecksum, Collides, Drifts, PendingFiles, MustHold, Unit,
         DistinctRows, Checksummed, DistinctNames;
    var p := s.procs[a.r];
    if p.pc == Ready && p.k < |p.todo| {
      StartOfBody(Body(s.means, p.todo[p.k]));
    }
    if p.pc == Inserted && p.open != NoTxn {
      CommitRecords(s.base, Session(s.commits, p.open), RowOf(hash, p.todo[p.k]));
    }
  }

  /** Only the acting process changes. */
  lemma {:induction false} OthersStand(hash: string -> string, s: System, a: Action, x: nat)
    requires x < |s.procs| && x != a.r
    ensures |Next(hash, s, a).procs| == |s.procs| && Next(hash, s, a).procs[x] == s.procs[x]
  {
    hide Body, MustHold, Drifts, Collides, ExecIn, ExecTxn, InsertRow, PendingFiles, FailQuery, ToMigration;
  }

  lemma {:induction false} NobodyActs(hash: string -> string, s: System, a: Action)
    requires a.r >= |s.procs|
    ensures Next(hash, s, a) == s
  {
  }

  /** The body that the process is in, if it is in one, is harmless. */
  ghost predicate AtHarmless(s: System, r: nat) {
    r < |s.procs| && s.procs[r].pc == Working && s.procs[r].k < |s.procs[r].todo|
    ==> IsHarmless(Body(s.means, s.procs[r].todo[s.procs[r].k]))
  }

  /** A step in a harmless body, and any other step, commits nothing or one whole file. */
  lemma {:induction false} StepIsWhole(hash: string -> string, s: System, a: Action)
    requires Inv(hash, s) && Whole(hash, s) && AtHarmless(s, a.r)
    ensures var s' := Next(hash, s, a); Whole(hash, s') && CommitsWhole(hash, s, s', a.r)
  {
    hide Next, ProcessWhole, CommitsWhole, IsWholeFile, IsHarmless, Body;
    var s' := Next(hash, s, a);
    if a.r >= |s.procs| {
      NobodyActs(hash, s, a);
      CommitsNothing(hash, s, a.r);
    } else {
      StepKeepsDirs(hash, s, a);
      if s.procs[a.r].pc == Working {
        WorkingWhole(hash, s, a);
      } else {
        OtherWhole(hash, s, a);
      }
      CommittedIsPlanned(hash, s, a);
      CommitsStayWhole(hash, s, s', a.r);
      forall x | 0 <= x < |s.procs|
        ensures ProcessWhole(hash, s', s'.procs[x])
      {
        if x != a.r {
          OthersStand(hash, s, a, x);
          StillWhole(hash, s, s', s.procs[x]);
        }
      }
    }
  }

  /** If whatever can still be carried out is harmless, each step commits nothing or one whole file. */
  lemma {:induction false} StepKeepsWhole(hash: string -> string, s: System, a: Action)
    requires WellFormed(hash, s) && Inv(hash, s) && Whole(hash, s) && ExecutablesHarmless(hash, s)
    ensures var s' := Next(hash, s, a);
            Whole(hash, s') && ExecutablesHarmless(hash, s') && CommitsWhole(hash, s, s', a.r)
  {
    hide Next, CommitsWhole, Inv, WellFormed, ExecutablesHarmless, Whole, Body, IsHarmless;
    if a.r < |s.procs| && s.procs[a.r].pc == Working {
      BodyOfWorking(hash, s, a.r);
    }
    StepIsWhole(hash, s, a);
    StillHarmless(hash, s, a);
  }

  lemma {:induction false} CommitsNothing(hash: string -> string, s: System, r: nat)
    ensures CommitsWhole(hash, s, s, r)
  {
  }

  lemma {:induction false} StillWhole(hash: string -> string, s: System, s': System, p: Process)
    requires ProcessWhole(hash, s, p) && s'.means == s.means
    ensures ProcessWhole(hash, s', p)
  {
  }

  /** Only a process that is at one of its planned files commits anything. */
  lemma {:induction false} CommittedIsPlanned(hash: string -> string, s: System, a: Action)
    requires Inv(hash, s) && a.r < |s.procs|
    ensures var p := s.procs[a.r];
            Next(hash, s, a).commits != s.commits ==> p.k < |p.todo| && p.todo[p.k] in p.dir
  {
    hide Body, HasRow, LedgerRows, ExecIn, MigrationChecksum, Collides, Drifts, PendingFiles, MustHold, DistinctRows,
         Checksummed, DistinctNames, InsertRow;
    var p := s.procs[a.r];
    NotImplicitYet(s.commits, p.open);
    NothingToCommit(s.commits);
  }

  /** What can be carried out after a step could be carried out before. */
  lemma {:induction false} StillHarmless(hash: string -> string, s: System, a: Action)
    requires WellFormed(hash, s) && Inv(hash, s) && ExecutablesHarmless(hash, s)
    ensures ExecutablesHarmless(hash, Next(hash, s, a))
  {
    hide Next, Body, IsHarmless, MustHold, ToMigration, Inv, WellFormed, LedgerRows, Recorded, MigrationChecksum,
         NeverEmpty;
    var s' := Next(hash, s, a);
    StepKeepsDirs(hash, s, a);
    StepKeepsInv(hash, s, a);
    forall r, f | 0 <= r < |s'.procs| && Executable(hash, s', s'.procs[r], f)
      ensures IsHarmless(Body(s'.means, f))
    {
      if Ledger(s') != Ledger(s) {
        var row := RowOf(hash, s.procs[a.r].todo[s.procs[a.r].k]);
        NeverEmptyRow(hash, s, s.procs[a.r].todo[s.procs[a.r].k]);
        UnrecordedBefore(Ledger(s), row, f.name);
      }
      assert Executable(hash, s, s.procs[r], f);
    }
  }

  lemma {:induction false} NeverEmptyRow(hash: string -> string, s: System, f: File)
    requires WellFormed(hash, s)
    ensures RowOf(hash, f).checksum != ""
  {
    ChecksumNonEmpty(hash, f.raw);
  }

  lemma {:induction false} UnrecordedBefore(rows: seq<Row>, row: Row, name: string)
    requires row.checksum != "" && Recorded(rows + [row], name) == ""
    ensures Recorded(rows, name) == ""
  {
    assert (rows + [row])[..|rows|] == rows;
  }

  lemma {:induction false} StepsKeepWhole(hash: string -> string, s: System, actions: seq<Action>)
    requires WellFormed(hash, s) && Inv(hash, s) && Whole(hash, s) && ExecutablesHarmless(hash, s)
    ensures var s' := Reach(hash, s, actions);
            WellFormed(hash, s') && Inv(hash, s') && Whole(hash, s') && ExecutablesHarmless(hash, s')
    decreases |actions|
  {
    hide Inv, WellFormed, Next, Whole, ExecutablesHarmless, Records;
    if actions != [] {
      var n := |actions| - 1;
      StepsKeepWhole(hash, s, actions[..n]);
      StepKeepsInv(hash, Reach(hash, s, actions[..n]), actions[n]);
      StepKeepsWhole(hash, Reach(hash, s, actions[..n]), actions[n]);
    }
  }
}
