/** Exactly which bodies the runner applies atomically, and what becomes of the others. */
module Atomicity {
  import opened Text
  import opened Scanner
  import opened Stripper
  import opened SqlStatements
  import opened Checksum
  import opened Database
  import opened Harmless
  import opened Runner
  import opened RunLaws
  import opened Interleaving
  import opened Safety
  import opened SoloRun
  import opened BodySafety

  // ----- what a body that is not harmless leaves behind

  function PendingCount(o: Open): (n: nat) {
    if o.NoTxn? then 0 else |o.txn.stmts|
  }

  /** Work was committed without the row, or less is pending than the `w` statements that were done. */
  ghost predicate Torn(c: seq<Transaction>, s: Session, w: nat) {
    NoRowsSince(c, s) && (s.commits != c || PendingCount(s.open) < w)
  }

  /** While nothing is committed, an act makes at most itself pending. */
  lemma {:induction false} ActPends(s: Session, a: Act)
    ensures ExecAct(s, a).commits == s.commits ==>
              PendingCount(ExecAct(s, a).open) <= PendingCount(s.open) + (if a.Does? then 1 else 0)
    ensures EndQuery(s).commits == s.commits ==> PendingCount(EndQuery(s).open) <= PendingCount(s.open)
  {
  }

  lemma {:induction false} TornStays(c: seq<Transaction>, s: Session, a: Act, w: nat)
    requires Torn(c, s, w)
    ensures Torn(c, ExecAct(s, a), w + (if a.Does? then 1 else 0))
    ensures Torn(c, EndQuery(s), w)
  {
    ActAddsNoRow(c, s, a);
    ActPends(s, a);
  }

  /** Ending the transaction while work is pending tears the body. */
  lemma {:induction false} BreakingTears(c: seq<Transaction>, o: Open, k: Keyword)
    requires !o.NoTxn? && o.txn.stmts != [] && o.txn.rows == [] && !Opens(k)
    ensures Torn(c, ExecTxn(Session(c, o), k), |o.txn.stmts|)
  {
  }

  /** Where the execution of a body stands: as planned, or torn. */
  ghost predicate Stands(c: seq<Transaction>, s: Session, acts: seq<Act>, j: nat)
    requires j <= |acts|
  {
    if PhaseOf(acts[..j]).Broken? then Torn(c, s, |WorkTexts(acts[..j])|) else s == Session(c, OpenAt(acts, j))
  }

  lemma {:induction false} StandsNext(c: seq<Transaction>, s: Session, acts: seq<Act>, j: nat)
    requires j < |acts| && Stands(c, s, acts, j)
    ensures Stands(c, ExecAct(s, acts[j]), acts, j + 1)
  {
    hide PhaseOf, WorkTexts, ExecAct, Torn;
    PhaseNext(acts, j);
    WorkTextsNext(acts, j);
    if PhaseOf(acts[..j]).Broken? {
      TornStays(c, s, acts[j], |WorkTexts(acts[..j])|);
    } else if PhaseOf(acts[..j + 1]).Broken? {
      PendingIffWork(acts[..j]);
      BreakingTears(c, s.open, acts[j].keyword);
      UnfoldControl(s, acts[j]);
    } else {
      StepInside(c, acts, j);
    }
  }

  lemma {:induction false} UnfoldControl(s: Session, a: Act)
    requires a.Controls?
    ensures ExecAct(s, a) == ExecTxn(s, a.keyword)
  {
  }

  /** The end of the query text commits work that is pending outside a block. */
  lemma {:induction false} TornAtEnd(c: seq<Transaction>, s: Session, acts: seq<Act>)
    requires Stands(c, s, acts, |acts|) && !IsHarmless(acts)
    ensures Torn(c, EndQuery(s), |WorkTexts(acts)|)
  {
    hide PhaseOf, WorkTexts;
    assert acts[..|acts|] == acts;
    if PhaseOf(acts).Broken? {
      TornStays(c, s, Does(""), |WorkTexts(acts)|);
    } else {
      PendingIffWork(acts);
    }
  }

  lemma {:induction false} TornBody(c: seq<Transaction>, s: Session, acts: seq<Act>, j: nat)
    requires j < |acts| && Stands(c, s, acts, j) && !IsHarmless(acts)
    ensures ExecBody(s, acts, j, NoFault).ok
    ensures Torn(c, ExecBody(s, acts, j, NoFault).session, |WorkTexts(acts)|)
    decreases |acts| - j
  {
    hide Stands, Torn, IsHarmless, EndQuery, ExecAct, WorkTexts;
    StandsNext(c, s, acts, j);
    if j + 1 == |acts| {
      TornAtEnd(c, ExecAct(s, acts[j]), acts);
    } else {
      TornBody(c, ExecAct(s, acts[j]), acts, j + 1);
    }
  }

  /**
   * A body that is not harmless is recorded all the same. When nothing at all fails, the
   * run writes the row and reports success, and what it committed is not the body's work.
   */
  lemma {:induction false} TornIsRecorded(means: Reading, base: seq<Row>, s: Session, m: Migration)
    requires s.open.NoTxn? && !HasRow(LedgerRows(base, s.commits), m.name) && !IsHarmless(Asks(means, m.sql))
    ensures var r := ApplyOne(means, base, s, m, NoFault);
            && r.ok && r.session.open.NoTxn?
            && LedgerRows(base, r.session.commits) == LedgerRows(base, s.commits) + [Row(m.name, m.checksum)]
            && r.session.commits != s.commits && r.session.commits != s.commits + [Unit(means, m)]
  {
    hide Asks, IsHarmless, WorkTexts, ExecBody;
    var acts, row := Asks(means, m.sql), Row(m.name, m.checksum);
    NotHarmlessIsLong(acts);
    TornBody(s.commits, ExecTxn(s, Begin), acts, 0);
    var q := ExecBody(ExecTxn(s, Begin), acts, 0, NoFault).session;
    NoNewRows(base, s.commits, q, |q.commits|);
    assert q.commits[..|q.commits|] == q.commits;
    NoRowInNothing(m.name);
    RecordedInTheEnd(base, s.commits, q, row, WorkTexts(acts));
  }

  lemma {:induction false} NotHarmlessIsLong(acts: seq<Act>)
    requires !IsHarmless(acts)
    ensures acts != [] && Stands([], Session([], InBlock(NOTHING)), acts, 0)
    ensures forall c :: Stands(c, Session(c, InBlock(NOTHING)), acts, 0)
  {
    assert acts[..0] == [];
  }

  lemma {:induction false} RecordedInTheEnd(base: seq<Row>, c: seq<Transaction>, q: Session, row: Row,
                                            work: seq<string>)
    requires Torn(c, q, |work|) && LedgerRows(base, q.commits) == LedgerRows(base, c)
    ensures var commits := ExecTxn(InsertRow(q, row), Commit).commits;
            && LedgerRows(base, commits) == LedgerRows(base, c) + [row]
            && commits != c && commits != c + [Transaction(work, [row])]
  {
    var last := Transaction(if q.open.NoTxn? then [] else q.open.txn.stmts, [row]);
    assert !q.open.NoTxn? ==> q.open.txn.rows + [row] == [row];
    assert ExecTxn(InsertRow(q, row), Commit).commits == q.commits + [last];
    RowsOfAppend(q.commits, last);
    if q.commits == c {
      assert (q.commits + [last])[|c|] == last;
    } else {
      assert (q.commits + [last])[|c|] == q.commits[|c|];
    }
  }

  // ----- one migration, exactly

  ghost predicate NothingOrUnit(means: Reading, c: seq<Transaction>, m: Migration, commits: seq<Transaction>) {
    commits == c || commits == c + [Unit(means, m)]
  }

  ghost predicate Atomic(means: Reading, base: seq<Row>, s: Session, m: Migration, fault: Fault) {
    var r := ApplyOne(means, base, s, m, fault);
    NothingOrUnit(means, s.commits, m, r.session.commits) && (r.ok <==> r.session.commits != s.commits)
  }

  /**
   * Whatever fails, one migration leaves nothing, and reports failure, or exactly its
   * whole work with its row, and reports success: if and only if its body is harmless.
   */
  lemma {:induction false} AtomicIffHarmless(means: Reading, base: seq<Row>, s: Session, m: Migration)
    requires s.open.NoTxn? && !HasRow(LedgerRows(base, s.commits), m.name)
    ensures IsHarmless(Asks(means, m.sql)) <==> forall fault :: Atomic(means, base, s, m, fault)
  {
    hide ApplyOne, Asks, IsHarmless, HasRow, Unit, Strikes;
    if IsHarmless(Asks(means, m.sql)) {
      forall fault
        ensures Atomic(means, base, s, m, fault)
      {
        ApplyOneIsAtomic(means, base, s, m, fault);
        assert |s.commits + [Unit(means, m)]| != |s.commits|;
      }
    } else {
      TornIsRecorded(means, base, s, m);
      assert !Atomic(means, base, s, m, NoFault);
    }
  }

  // ----- one process, every schedule

  /** What one file may ever leave behind, in any state of any run with failures and crashes. */
  ghost predicate AlwaysWhole(means: Reading, hash: string -> string, f: File, ack: string) {
    forall actions :: NothingOrUnit(means, [], ToMigration(hash, f),
                                    Reach(hash, Fresh(means, [f], ack, [], []), actions).commits)
  }

  /**
   * In every state of every run of one process on one file, with failures and crashes
   * anywhere, either nothing or exactly the file with its row is committed: if and only
   * if the file is held or its body is harmless.
   */
  lemma {:induction false} AlwaysWholeIff(means: Reading, hash: string -> string, f: File, ack: string)
    requires NeverEmpty(hash)
    ensures AlwaysWhole(means, hash, f, ack)
       <==> MustHold(ToMigration(hash, f), ack) || IsHarmless(Body(means, f))
  {
    hide Body, IsHarmless, MustHold, Reach, ToMigration, Unit;
    if MustHold(ToMigration(hash, f), ack) {
      forall actions
        ensures Reach(hash, Fresh(means, [f], ack, [], []), actions).commits == []
      {
        HeldLeavesNothing(means, hash, f, ack, actions);
      }
    } else if IsHarmless(Body(means, f)) {
      forall actions
        ensures NothingOrUnit(means, [], ToMigration(hash, f),
                              Reach(hash, Fresh(means, [f], ack, [], []), actions).commits)
      {
        HarmlessIsWhole(means, hash, f, ack, actions);
      }
    } else {
      var actions := TornRun(means, hash, f, ack);
      assert !NothingOrUnit(means, [], ToMigration(hash, f),
                            Reach(hash, Fresh(means, [f], ack, [], []), actions).commits);
    }
  }

  /** A process that only holds never begins. */
  ghost predicate Holding(hash: string -> string, s: System, f: File, ack: string) {
    && s.commits == [] && |s.procs| == 1 && s.procs[0].dir == [f] && s.procs[0].ack == ack && s.procs[0].open == NoTxn
    && s.procs[0].pc in {Waiting, Locked, Ready, Releasing, Stopped}
    && (s.procs[0].pc == Ready ==> forall g :: g in s.procs[0].todo ==> g == f)
  }

  lemma {:induction false} HoldingStays(hash: string -> string, s: System, f: File, ack: string, a: Action)
    requires Holding(hash, s, f, ack) && MustHold(ToMigration(hash, f), ack)
    ensures Holding(hash, Next(hash, s, a), f, ack)
  {
    hide MustHold, ToMigration, Drifts, LedgerRows, Body;
    PendingOfOne(f, Ledger(s));
    if a.r < |s.procs| && s.procs[0].pc == Ready && s.procs[0].k < |s.procs[0].todo| {
      assert s.procs[0].todo[s.procs[0].k] in s.procs[0].todo;
    }
  }

  lemma {:induction false} PendingOfOne(f: File, rows: seq<Row>)
    ensures forall g :: g in PendingFiles([f], rows) ==> g == f
    ensures |PendingFiles([f], rows)| <= 1
  {
    hide Recorded;
    assert [f][..0] == [];
  }

  lemma {:induction false} HeldLeavesNothing(means: Reading, hash: string -> string, f: File, ack: string,
                                             actions: seq<Action>)
    requires MustHold(ToMigration(hash, f), ack)
    ensures Holding(hash, Reach(hash, Fresh(means, [f], ack, [], []), actions), f, ack)
    decreases |actions|
  {
    hide MustHold, ToMigration, Next;
    if actions != [] {
      var n := |actions| - 1;
      HeldLeavesNothing(means, hash, f, ack, actions[..n]);
      HoldingStays(hash, Reach(hash, Fresh(means, [f], ack, [], []), actions[..n]), f, ack, actions[n]);
    }
  }

  lemma {:induction false} HarmlessIsWhole(means: Reading, hash: string -> string, f: File, ack: string,
                                           actions: seq<Action>)
    requires NeverEmpty(hash) && IsHarmless(Body(means, f))
    ensures NothingOrUnit(means, [], ToMigration(hash, f), Reach(hash, Fresh(means, [f], ack, [], []), actions).commits)
  {
    hide Asks, IsHarmless, Reach, ToMigration, Inv, Strip;
    var s0 := Fresh(means, [f], ack, [], []);
    assert DistinctNames([f]) && ExecutablesHarmless(hash, s0);
    assert Initial(s0) by { NoLedger(); }
    SafeOverAllRuns(hash, s0, actions);
    var s := Reach(hash, s0, actions);
    DirsStay(hash, s0, actions);
    OnlyOneUnit(s, hash, f);
  }

  lemma {:induction false} NoLedger()
    ensures DistinctRows([]) && Checksummed([])
  {
  }

  lemma {:induction false} DirsStay(hash: string -> string, s0: System, actions: seq<Action>)
    ensures var s := Reach(hash, s0, actions);
            && |s.procs| == |s0.procs| && s.means == s0.means && s.base == s0.base
            && forall x :: 0 <= x < |s.procs| ==> s.procs[x].dir == s0.procs[x].dir
    decreases |actions|
  {
    hide Next;
    if actions != [] {
      var n := |actions| - 1;
      DirsStay(hash, s0, actions[..n]);
      StepKeepsDirs(hash, Reach(hash, s0, actions[..n]), actions[n]);
    }
  }

  lemma {:induction false} OnlyOneUnit(s: System, hash: string -> string, f: File)
    requires |s.procs| == 1 && s.procs[0].dir == [f] && s.base == []
    requires forall i :: 0 <= i < |s.commits| ==> IsWholeFile(hash, s, s.commits[i])
    requires OneRowEach(s.commits) && DistinctRows(Ledger(s))
    ensures s.commits == [] || s.commits == [Unit(s.means, ToMigration(hash, f))]
  {
    hide ToMigration, Unit;
    var u := Unit(s.means, ToMigration(hash, f));
    forall i | 0 <= i < |s.commits|
      ensures s.commits[i] == u
    {
      assert IsWholeFile(hash, s, s.commits[i]);
    }
    assert Ledger(s) == RowsOf(s.commits);
    SameOnce(s.commits, u);
  }

  /** A transaction with a row can be committed once: the ledger refuses its row a second time. */
  lemma {:induction false} SameOnce(commits: seq<Transaction>, u: Transaction)
    requires OneRowEach(commits) && DistinctRows(RowsOf(commits)) && forall i :: 0 <= i < |commits| ==> commits[i] == u
    ensures commits == [] || commits == [u]
  {
    hide RowsOf;
    var rows := RowsOf(commits);
    forall i | 0 <= i < |rows|
      ensures u.rows == [rows[i]]
    {
      assert commits[i] == u;
    }
    if rows != [] {
      assert u.rows == [rows[0]];
      SameRowOnce(rows, u.rows[0]);
    }
  }

  lemma {:induction false} SameRowOnce(rows: seq<Row>, row: Row)
    requires DistinctRows(rows) && forall i :: 0 <= i < |rows| ==> rows[i] == row
    ensures |rows| <= 1
  {
    assert |rows| > 1 ==> rows[0].name != rows[1].name;
  }

  /** The run on which nothing fails shows that a body which is not harmless is torn. */
  lemma {:induction false} TornRun(means: Reading, hash: string -> string, f: File, ack: string)
    returns (actions: seq<Action>)
    requires !MustHold(ToMigration(hash, f), ack) && !IsHarmless(Body(means, f))
    ensures var s := Reach(hash, Fresh(means, [f], ack, [], []), actions);
            && s.commits != [] && s.commits != [Unit(means, ToMigration(hash, f))]
            && Ledger(s) == [Row(f.name, MigrationChecksum(hash, f.raw))]
  {
    hide Asks, IsHarmless, MustHold, Reach, Unit, MigrationChecksum, ApplyOne, Strip;
    var m := ToMigration(hash, f);
    actions := NoFaultRun(means, hash, f, ack);
    assert LedgerRows([], []) == [];
    NoRowInNothing(m.name);
    TornIsRecorded(means, [], Session([], NoTxn), m);
    assert [] + [Unit(means, m)] == [Unit(means, m)];
  }

  /** The schedule of the sequential runner on one file, with no failure. */
  lemma {:induction false} NoFaultRun(means: Reading, hash: string -> string, f: File, ack: string)
    returns (actions: seq<Action>)
    requires !MustHold(ToMigration(hash, f), ack)
    ensures var s := Reach(hash, Fresh(means, [f], ack, [], []), actions);
            && s.base == []
            && s.commits == ApplyOne(means, [], Session([], NoTxn), ToMigration(hash, f), NoFault).session.commits
  {
    hide MustHold, Reach, ApplyOne, ToMigration, Drifts, DoneAt, PendingFiles;
    OneFilePending(hash, f);
    var faults := (_: string) => NoFault;
    actions := RunnerIsAMachineRun(hash, Fresh(means, [f], ack, [], []), 0, [f], ack, faults);
    DirsStay(hash, Fresh(means, [f], ack, [], []), actions);
    RunOfOne(means, hash, f, ack, faults);
    DoneCommits(Reach(hash, Fresh(means, [f], ack, [], []), actions), 0,
                RunOnce(means, hash, [f], [], [], ack, faults).session.commits);
  }

  lemma {:induction false} DoneCommits(s: System, r: nat, commits: seq<Transaction>)
    requires DoneAt(s, r, commits)
    ensures s.commits == commits
  {
  }

  lemma {:induction false} RunOfOne(means: Reading, hash: string -> string, f: File, ack: string,
                                    faults: string -> Fault)
    requires !MustHold(ToMigration(hash, f), ack) && PendingFiles([f], LedgerRows([], [])) == [f]
    ensures RunOnce(means, hash, [f], [], [], ack, faults).session.commits
         == ApplyOne(means, [], Session([], NoTxn), ToMigration(hash, f),
                     faults(ToMigration(hash, f).name)).session.commits
  {
    hide MustHold, ApplyOne, ToMigration, PendingFiles;
    var ms := ToMigrations(hash, [f]);
    assert ms == [ToMigration(hash, f)];
    var one := ApplyOne(means, [], Session([], NoTxn), ms[0], faults(ms[0].name));
    var r := ApplyFrom(means, [], Session([], NoTxn), ms, ack, faults, 0);
    assert one.ok ==> r == ApplyFrom(means, [], one.session, ms, ack, faults, 1);
    assert r.session == one.session;
  }

  // ----- two ways to be torn

  lemma {:induction false} CrashOne(hash: string -> string, s: System, dir: seq<File>, ack: string, todo: seq<File>,
                                    k: nat, j: nat, q: Session)
    requires InBodyAt(s, 0, dir, ack, todo, k, j, q)
    ensures var s' := Next(hash, s, Crash(0)); s'.commits == q.commits && s'.base == s.base && s'.lock == None
  {
  }

  /** The first `n` acts of a body, none of which breaks anything. */
  lemma {:induction false} ExecPrefix(hash: string -> string, s: System, dir: seq<File>, ack: string, todo: seq<File>,
                                      k: nat, n: nat, c: seq<Transaction>) returns (actions: seq<Action>)
    requires k < |todo| && n < |Body(s.means, todo[k])| && !PhaseOf(Body(s.means, todo[k])[..n]).Broken?
    requires InBodyAt(s, 0, dir, ack, todo, k, 0, Session(c, InBlock(NOTHING)))
    ensures var s' := Reach(hash, s, actions);
            && s'.base == s.base && s'.means == s.means
            && InBodyAt(s', 0, dir, ack, todo, k, n, Session(c, OpenAt(Body(s.means, todo[k]), n)))
    decreases n
  {
    hide Body, InBodyAt, Next, PhaseOf, OpenAt, ExecAct;
    var body := Body(s.means, todo[k]);
    if n == 0 {
      actions := [];
      StartOfBody(body);
    } else {
      if PhaseOf(body[..n - 1]).Broken? {
        assert body[..n][..n - 1] == body[..n - 1];
        BrokenStays(body[..n], n - 1);
      }
      actions := ExecPrefix(hash, s, dir, ack, todo, k, n - 1, c);
      StepInside(c, body, n - 1);
      ExecOne(hash, Reach(hash, s, actions), 0, dir, ack, todo, k, n - 1, Session(c, OpenAt(body, n - 1)));
      ReachOne(hash, s, actions, Exec(0, false));
      actions := actions + [Exec(0, false)];
    }
  }

  /**
   * A body that commits leaks. If statement `n` commits while work is pending, and more
   * follows or not, a crash right after it leaves that work committed and the ledger empty.
   */
  lemma {:induction false} CommitInBodyLeaks(means: Reading, hash: string -> string, f: File, ack: string, n: nat)
    returns (actions: seq<Action>)
    requires n < |Body(means, f)| && Body(means, f)[n] in {Controls(Keyword.Commit), Controls(Keyword.EndTransaction)}
    requires PhaseOf(Body(means, f)[..n]).Pending?
    requires !MustHold(ToMigration(hash, f), ack)
    ensures var s := Reach(hash, Fresh(means, [f], ack, [], []), actions);
            && WorkTexts(Body(means, f)[..n]) != []
            && s.commits == [Transaction(WorkTexts(Body(means, f)[..n]), [])] && Ledger(s) == [] && s.lock == None
  {
    hide Body, MustHold, Drifts, ToMigration, InBodyAt, ReadyAt, Next, WorkTexts, PhaseOf;
    var s0, body := Fresh(means, [f], ack, [], []), Body(means, f);
    var done := Transaction(WorkTexts(body[..n]), []);
    PendingIffWork(body[..n]);
    OneFilePending(hash, f);
    StartUp(hash, s0, 0, [f], ack);
    var a := [Acquire(0), ReadLedger(0)];
    BeginOne(hash, Reach(hash, s0, a), 0, [f], ack, [f], 0, Session([], NoTxn));
    ReachOne(hash, s0, a, Proceed(0));
    a := a + [Proceed(0)];
    var b := ExecPrefix(hash, Reach(hash, s0, a), [f], ack, [f], 0, n, []);
    ReachThen(hash, s0, a, b);
    a := a + b;
    var q := Session([], OpenAt(body, n));
    ExecOne(hash, Reach(hash, s0, a), 0, [f], ack, [f], 0, n, q);
    ReachOne(hash, s0, a, Exec(0, false));
    a := a + [Exec(0, false)];
    assert [] + [done] == [done];
    assert ExecIn(q, body, n) == Session([done], NoTxn);
    CrashOne(hash, Reach(hash, s0, a), [f], ack, [f], 0, n + 1, Session([done], NoTxn));
    ReachOne(hash, s0, a, Crash(0));
    actions := a + [Crash(0)];
    assert done.rows == [];
    RowsOfAppend([], done);
  }

  /**
   * A body that rolls back is recorded without its work. If a rollback ends a body whose
   * work is pending, the run on which nothing fails commits the row alone, and no later
   * run will try the file again.
   */
  lemma {:induction false} RollbackIsRecorded(means: Reading, hash: string -> string, f: File, ack: string)
    returns (actions: seq<Action>)
    requires NeverEmpty(hash) && !MustHold(ToMigration(hash, f), ack)
    requires |Body(means, f)| > 0 && Body(means, f)[|Body(means, f)| - 1] == Controls(Keyword.Rollback)
    requires PhaseOf(Body(means, f)[..|Body(means, f)| - 1]).Pending?
    ensures var s := Reach(hash, Fresh(means, [f], ack, [], []), actions);
            && WorkTexts(Body(means, f)) != []
            && s.commits == [Transaction([], [Row(f.name, MigrationChecksum(hash, f.raw))])]
            && PendingFiles([f], Ledger(s)) == []
  {
    hide Body, MustHold, Reach, PhaseOf, WorkTexts, MigrationChecksum, ApplyOne, RowsOf, PendingFiles, ToMigration;
    var body := Body(means, f);
    var n, row := |body| - 1, Row(f.name, MigrationChecksum(hash, f.raw));
    actions := NoFaultRun(means, hash, f, ack);
    PendingIffWork(body[..n]);
    WorkTextsNext(body, n);
    assert body[..n + 1] == body;
    RowAlone(means, hash, f);
    RowsOfAppend([], Transaction([], [row]));
    assert [] + [Transaction([], [row])] == [Transaction([], [row])];
    NoRows();
    assert [] + ([] + [row]) == [row];
    ChecksumNonEmpty(hash, f.raw);
    NothingPending(f, row);
  }

  lemma {:induction false} NoRows()
    ensures RowsOf([]) == []
  {
  }

  lemma {:induction false} RowAlone(means: Reading, hash: string -> string, f: File)
    requires var body := Body(means, f);
             |body| > 0 && body[|body| - 1] == Controls(Keyword.Rollback) && PhaseOf(body[..|body| - 1]).Pending?
    ensures ApplyOne(means, [], Session([], NoTxn), ToMigration(hash, f), NoFault).session.commits
         == [Transaction([], [Row(f.name, MigrationChecksum(hash, f.raw))])]
  {
    hide Asks, PhaseOf, MigrationChecksum, Strip, ExecBody, HasRow, OpenAt;
    StartOfBody(Body(means, f));
    RolledBack(Body(means, f));
    NoRowInNothing(f.name);
    assert LedgerRows([], []) == [];
  }

  lemma {:induction false} NothingPending(f: File, row: Row)
    requires row.name == f.name && row.checksum != ""
    ensures PendingFiles([f], [row]) == []
  {
    assert [f][..0] == [] && [row][..0] == [];
  }

  lemma {:induction false} RolledBack(body: seq<Act>)
    requires |body| > 0 && body[|body| - 1] == Controls(Keyword.Rollback) && PhaseOf(body[..|body| - 1]).Pending?
    ensures ExecBody(Session([], OpenAt(body, 0)), body, 0, NoFault) == Step(Session([], NoTxn), true)
  {
    RolledBackFrom(body, 0);
  }

  lemma {:induction false} RolledBackFrom(body: seq<Act>, j: nat)
    requires j < |body| && body[|body| - 1] == Controls(Keyword.Rollback) && PhaseOf(body[..|body| - 1]).Pending?
    ensures ExecBody(Session([], OpenAt(body, j)), body, j, NoFault) == Step(Session([], NoTxn), true)
    decreases |body| - j
  {
    hide PhaseOf, OpenAt, ExecAct;
    var n := |body| - 1;
    if j == n {
      LastRollsBack(body);
    } else {
      if PhaseOf(body[..j + 1]).Broken? {
        assert body[..n][..j + 1] == body[..j + 1];
        BrokenStays(body[..n], j + 1);
      }
      StepInside([], body, j);
      RolledBackFrom(body, j + 1);
    }
  }

  lemma {:induction false} LastRollsBack(body: seq<Act>)
    requires |body| > 0 && body[|body| - 1] == Controls(Keyword.Rollback) && PhaseOf(body[..|body| - 1]).Pending?
    ensures ExecIn(Session([], OpenAt(body, |body| - 1)), body, |body| - 1) == Session([], NoTxn)
  {
    hide PhaseOf, WorkTexts;
  }

  // ----- files that have no residue and are torn all the same

  const TRAILING_COMMIT: File := File("044-example.sql", TRAILING)
  const HIDDEN_COMMIT: File := File("044-example.sql", HIDDEN_END)

  lemma {:induction false} ShortTextIsNotDestructive(hash: string -> string, f: File, ack: string)
    requires |f.raw| < |DESTRUCTIVE_MARKER|
    ensures !MustHold(ToMigration(hash, f), ack)
  {
    hide Strip, MigrationChecksum;
  }

  /** The residue is empty, as the repository requires, and the last statement commits: it needs no semicolon to run. */
  lemma {:induction false} ResidueFreeFileLeaks(means: Reading, hash: string -> string, ack: string)
    returns (actions: seq<Action>)
    requires means("A") == None
    ensures Residual(TRAILING_COMMIT.raw) == []
    ensures var s := Reach(hash, Fresh(means, [TRAILING_COMMIT], ack, [], []), actions);
            s.commits == [Transaction(["A"], [])] && Ledger(s) == []
  {
    hide Residual, Reach, MustHold, Statements, Strip, Fresh, Ledger;
    TrailingControlSurvives();
    ShortTextIsNotDestructive(hash, TRAILING_COMMIT, ack);
    FirstWork(Body(means, TRAILING_COMMIT), "A");
    actions := CommitInBodyLeaks(means, hash, TRAILING_COMMIT, ack, 1);
  }

  lemma {:induction false} FirstWork(acts: seq<Act>, w: string)
    requires acts != [] && acts[0] == Does(w)
    ensures PhaseOf(acts[..1]).Pending? && WorkTexts(acts[..1]) == [w]
  {
    assert acts[..1][..0] == [] && acts[..1] == [Does(w)];
  }

  /** The residue is empty, every match begins a statement, and a spelling that the pattern does not know commits. */
  lemma {:induction false} HiddenEndLeaks(means: Reading, hash: string -> string, ack: string)
    returns (actions: seq<Action>)
    requires means("A") == None && means("END") == Some(EndTransaction)
    ensures Residual(HIDDEN_COMMIT.raw) == [] && !IsHarmless(Body(means, HIDDEN_COMMIT))
    ensures var s := Reach(hash, Fresh(means, [HIDDEN_COMMIT], ack, [], []), actions);
            s.commits == [Transaction(["A"], [])] && Ledger(s) == []
  {
    HiddenEndIsNotHarmless(means);
    hide Residual, Reach, MustHold, Asks, Strip, Fresh, Ledger, IsHarmless;
    ShortTextIsNotDestructive(hash, HIDDEN_COMMIT, ack);
    var body := Body(means, HIDDEN_COMMIT);
    assert body == Asks(means, HIDDEN_END) && body[0] == body[..2][0] && body[1] == body[..2][1];
    FirstWork(body, "A");
    actions := CommitInBodyLeaks(means, hash, HIDDEN_COMMIT, ack, 1);
  }
}
