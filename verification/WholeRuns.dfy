/**
 * Exactly when any number of runners are atomic together: every step of every interleaving
 * commits nothing or all the work of one file with its row if and only if every file that
 * can be carried out in some order of turns is harmless.
 */
module WholeRuns {
  import opened Text
  import opened Scanner
  import opened Stripper
  import opened SqlStatements
  import opened Checksum
  import opened Database
  import opened Harmless
  import opened Runner
  import opened RunLaws
  import opened Interleaving
  import opened Safety
  import opened SoloRun
  import opened Serial
  import Atomicity

  // ----- harmless plans keep every step whole

  lemma {:induction false} AtPlanned(hash: string -> string, s0: System, s: System, r: nat, plan: seq<Turn>)
    requires Inv(hash, s) && SerialInv(hash, s0, s, plan) && PlansHarmless(hash, s0)
    ensures AtHarmless(s, r)
  {
    hide Body, IsHarmless, LedgerRows, RowsAfter, ValidPlan, TookTurn, Drifts, MustHold, ToMigration, FileRows,
         PendingFiles, DistinctRows, Checksummed, TodoOpen;
    if r < |s.procs| && s.procs[r].pc == Working && s.procs[r].k < |s.procs[r].todo| {
      var p := s.procs[r];
      assert s.lock == Some(r);
      var t := Turn(r, p.k + 1);
      PlanThen(hash, s0, plan, t);
      assert (plan + [t])[..|plan|] == plan;
      assert EndsWithFile(hash, s0, plan + [t], p.todo[p.k]);
    }
  }

  ghost predicate StepWholeAt(hash: string -> string, s0: System, actions: seq<Action>, a: Action) {
    var s := Reach(hash, s0, actions);
    CommitsWhole(hash, s, Next(hash, s, a), a.r)
  }

  ghost predicate EveryStepWhole(hash: string -> string, s0: System) {
    forall actions, a :: StepWholeAt(hash, s0, actions, a)
  }

  lemma {:induction false} PlansKeepWhole(hash: string -> string, s0: System, actions: seq<Action>)
    requires WellFormed(hash, s0) && Initial(s0) && PlansHarmless(hash, s0)
    ensures Whole(hash, Reach(hash, s0, actions))
    ensures forall a :: StepWholeAt(hash, s0, actions, a)
    decreases |actions|
  {
    hide Inv, WellFormed, Next, Whole, PlansHarmless, SerialInv, Initial, CommitsWhole, AtHarmless;
    InitialInv(hash, s0);
    var s := Reach(hash, s0, actions);
    StepsKeepInv(hash, s0, actions);
    if actions != [] {
      var n := |actions| - 1;
      PlansKeepWhole(hash, s0, actions[..n]);
      StepsKeepInv(hash, s0, actions[..n]);
      var before := EveryRunIsSerial(hash, s0, actions[..n]);
      AtPlanned(hash, s0, Reach(hash, s0, actions[..n]), actions[n].r, before);
      StepIsWhole(hash, Reach(hash, s0, actions[..n]), actions[n]);
    }
    var plan := EveryRunIsSerial(hash, s0, actions);
    forall a
      ensures StepWholeAt(hash, s0, actions, a)
    {
      AtPlanned(hash, s0, s, a.r, plan);
      StepIsWhole(hash, s, a);
    }
  }

  // ----- a plan can be followed

  lemma {:induction false} OthersWait(hash: string -> string, s: System, actions: seq<Action>, r: nat, x: nat)
    requires OnlyBy(actions, r) && x < |s.procs| && x != r
    ensures |Reach(hash, s, actions).procs| == |s.procs| && Reach(hash, s, actions).procs[x] == s.procs[x]
    decreases |actions|
  {
    hide Next;
    if actions != [] {
      var n := |actions| - 1;
      OthersWait(hash, s, actions[..n], r, x);
      OthersStand(hash, Reach(hash, s, actions[..n]), actions[n], x);
    }
  }

  /** No failure strikes, and the next files are recorded one after the other. */
  lemma {:induction false} Advance(hash: string -> string, s: System, r: nat, dir: seq<File>, ack: string,
                                   todo: seq<File>, k: nat, n: nat, q: Session)
    returns (actions: seq<Action>, q': Session)
    requires ReadyAt(s, r, dir, ack, todo, k, q) && q.open.NoTxn? && k <= n && NoneHeldTo(hash, todo, ack, n)
    requires DistinctNames(todo) && forall j :: k <= j < n ==> !HasRow(LedgerRows(s.base, q.commits), todo[j].name)
    ensures var s' := Reach(hash, s, actions);
            && OnlyBy(actions, r) && s'.base == s.base && s'.means == s.means
            && ReadyAt(s', r, dir, ack, todo, n, q') && q'.open.NoTxn?
            && LedgerRows(s.base, q'.commits) == LedgerRows(s.base, q.commits) + FileRows(hash, todo[k..n])
    decreases n - k
  {
    hide ReadyAt, Reach, ApplyOne, LedgerRows, HasRow, MustHold, MigrationChecksum, Strip, DoneAt;
    var rows := LedgerRows(s.base, q.commits);
    if k == n {
      actions, q' := [], q;
      ReachNothing(hash, s);
      NoFileRows(hash, rows);
      assert todo[k..n] == [];
    } else {
      var m, row := ToMigration(hash, todo[k]), RowOf(hash, todo[k]);
      var a := MigrationRun(hash, s, r, dir, ack, todo, k, q, NoFault);
      ApplyOneRecords(s.means, s.base, q, m, NoFault);
      var one := ApplyOne(s.means, s.base, q, m, NoFault);
      forall j | k + 1 <= j < n
        ensures !HasRow(LedgerRows(s.base, one.session.commits), todo[j].name)
      {
        NoOtherRow(rows, row, todo[j].name);
      }
      var b;
      b, q' := Advance(hash, Reach(hash, s, a), r, dir, ack, todo, k + 1, n, one.session);
      ReachThen(hash, s, a, b);
      OnlyByBoth(a, b, r);
      actions := a + b;
      FirstRowOf(hash, todo, k, n, rows);
    }
  }

  lemma {:induction false} NoOtherRow(rows: seq<Row>, row: Row, name: string)
    requires !HasRow(rows, name) && row.name != name
    ensures !HasRow(rows + [row], name)
  {
    HasRowAppend(rows, [row], name);
    assert HasRow([row], name) <==> [row][0].name == name;
  }

  lemma {:induction false} FirstRowOf(hash: string -> string, todo: seq<File>, k: nat, n: nat, rows: seq<Row>)
    requires k < n <= |todo|
    ensures rows + [RowOf(hash, todo[k])] + FileRows(hash, todo[k + 1..n]) == rows + FileRows(hash, todo[k..n])
  {
    hide MigrationChecksum;
  }

  lemma {:induction false} PendingUnrecorded(hash: string -> string, s: System, dir: seq<File>)
    requires Inv(hash, s) && DistinctNames(dir)
    ensures var fs := PendingFiles(dir, Ledger(s));
            DistinctNames(fs) && forall j :: 0 <= j < |fs| ==> !HasRow(Ledger(s), fs[j].name) && fs[j] in dir
  {
    hide ProcessOk, LedgerRows, HasRow;
    OpenAfterRead(s, dir);
  }

  /** The process is let run until `n` of its files are recorded. */
  lemma {:induction false} Begin(hash: string -> string, s: System, r: nat, dir: seq<File>, ack: string, n: nat)
    returns (actions: seq<Action>, q: Session)
    requires Inv(hash, s) && DistinctNames(dir) && WaitingAt(s, r, dir, ack) && NoDrift(hash, dir, Ledger(s))
    requires NoneHeldTo(hash, PendingFiles(dir, Ledger(s)), ack, n)
    ensures var s', fs := Reach(hash, s, actions), PendingFiles(dir, Ledger(s));
            && OnlyBy(actions, r) && s'.base == s.base && s'.means == s.means
            && ReadyAt(s', r, dir, ack, fs, n, q) && q.open.NoTxn?
            && LedgerRows(s.base, q.commits) == Ledger(s) + FileRows(hash, fs[..n])
  {
    hide ReadyAt, Reach, LedgerRows, PendingFiles, Inv, NoDrift, WaitingAt, HasRow, MustHold, ToMigration, FileRows,
         DistinctNames;
    var fs := PendingFiles(dir, Ledger(s));
    PendingUnrecorded(hash, s, dir);
    StartUp(hash, s, r, dir, ack);
    var a := [Acquire(r), ReadLedger(r)];
    var b;
    b, q := Advance(hash, Reach(hash, s, a), r, dir, ack, fs, 0, n, Session(s.commits, NoTxn));
    ReachThen(hash, s, a, b);
    OnlyByBoth(a, b, r);
    actions := a + b;
    assert fs[0..n] == fs[..n];
  }

  /** The connection is lost between two migrations. */
  lemma {:induction false} CrashReady(hash: string -> string, s: System, r: nat, dir: seq<File>, ack: string,
                                      todo: seq<File>, k: nat, q: Session)
    requires ReadyAt(s, r, dir, ack, todo, k, q)
    ensures var s' := Next(hash, s, Crash(r));
            s'.lock == None && s'.commits == q.commits && s'.base == s.base && s'.means == s.means
  {
  }

  lemma {:induction false} TakeTurn(hash: string -> string, s: System, r: nat, dir: seq<File>, ack: string, n: nat)
    returns (actions: seq<Action>)
    requires Inv(hash, s) && DistinctNames(dir) && WaitingAt(s, r, dir, ack)
    requires n > 0 ==> NoDrift(hash, dir, Ledger(s))
    requires NoneHeldTo(hash, PendingFiles(dir, Ledger(s)), ack, n)
    ensures var s' := Reach(hash, s, actions);
            && OnlyBy(actions, r) && s'.lock == None
            && Ledger(s') == Ledger(s) + FileRows(hash, PendingFiles(dir, Ledger(s))[..n])
  {
    hide ReadyAt, LedgerRows, PendingFiles, Inv, NoDrift, MustHold, ToMigration, Next, Reach, NoneHeldTo;
    if n == 0 {
      actions := [];
      ReachNothing(hash, s);
      NoFileRows(hash, Ledger(s));
    } else {
      var a, q := Begin(hash, s, r, dir, ack, n);
      CrashReady(hash, Reach(hash, s, a), r, dir, ack, PendingFiles(dir, Ledger(s)), n, q);
      ReachOne(hash, s, a, Crash(r));
      OnlyByBoth(a, [Crash(r)], r);
      actions := a + [Crash(r)];
    }
  }

  /** The turns of the plan have been taken, and nobody else has begun. */
  ghost predicate Followed(hash: string -> string, s0: System, s: System, plan: seq<Turn>) {
    && SameProcesses(s0, s) && s.lock == None && Ledger(s) == RowsAfter(hash, s0, plan)
    && forall x :: 0 <= x < |s.procs| && !TookTurn(plan, x) ==> s.procs[x] == s0.procs[x]
  }

  lemma {:induction false} SameReached(hash: string -> string, s0: System, s: System, actions: seq<Action>)
    requires SameProcesses(s0, s)
    ensures SameProcesses(s0, Reach(hash, s, actions))
    decreases |actions|
  {
    hide Next, SameProcesses;
    if actions != [] {
      var n := |actions| - 1;
      SameReached(hash, s0, s, actions[..n]);
      SameThen(hash, s0, Reach(hash, s, actions[..n]), actions[n]);
    }
  }

  lemma {:induction false} StillWaiting(s0: System, s: System, hash: string -> string, plan: seq<Turn>, r: nat)
    requires Initial(s0) && Followed(hash, s0, s, plan) && r < |s0.procs| && !TookTurn(plan, r)
    ensures r < |s.procs| && WaitingAt(s, r, s0.procs[r].dir, s0.procs[r].ack)
  {
    hide LedgerRows, RowsAfter, TookTurn;
  }

  lemma {:induction false} FollowPlan(hash: string -> string, s0: System, plan: seq<Turn>)
    returns (actions: seq<Action>)
    requires WellFormed(hash, s0) && Initial(s0) && ValidPlan(hash, s0, plan)
    ensures Followed(hash, s0, Reach(hash, s0, actions), plan)
    decreases |plan|
  {
    hide Inv, Reach, WaitingAt, LedgerRows, PendingFiles, NoDrift, NoneHeldTo, FileRows, Initial, TookTurn;
    if plan == [] {
      actions := [];
      ReachNothing(hash, s0);
      FollowedAtFirst(hash, s0);
    } else {
      var m := |plan| - 1;
      var rest, t := plan[..m], plan[m];
      var a := FollowPlan(hash, s0, rest);
      var s := Reach(hash, s0, a);
      InitialInv(hash, s0);
      StepsKeepInv(hash, s0, a);
      StillWaiting(s0, s, hash, rest, t.r);
      var b := TakeTurn(hash, s, t.r, s0.procs[t.r].dir, s0.procs[t.r].ack, t.n);
      ReachThen(hash, s0, a, b);
      actions := a + b;
      SameReached(hash, s0, s, b);
      NoneHeldFits(hash, PendingOf(s0, RowsAfter(hash, s0, rest), t.r), s0.procs[t.r].ack, t.n);
      forall x | 0 <= x < |s0.procs| && !TookTurn(plan, x)
        ensures Reach(hash, s0, actions).procs[x] == s0.procs[x]
      {
        assert rest + [t] == plan;
        TookThen(rest, t, x);
        OthersWait(hash, s, b, t.r, x);
      }
    }
  }

  lemma {:induction false} NoneHeldFits(hash: string -> string, fs: seq<File>, ack: string, n: nat)
    requires NoneHeldTo(hash, fs, ack, n)
    ensures n <= |fs|
    ensures n > 0 ==> NoneHeldTo(hash, fs, ack, n - 1) && !MustHold(ToMigration(hash, fs[n - 1]), ack)
  {
  }

  lemma {:induction false} FollowedAtFirst(hash: string -> string, s0: System)
    requires Initial(s0)
    ensures Followed(hash, s0, s0, [])
  {
    hide LedgerRows;
  }

  // ----- whole steps commit whole files

  ghost predicate IsUnitIn(hash: string -> string, means: Reading, dir: seq<File>, t: Transaction) {
    exists f :: f in dir && t == Unit(means, ToMigration(hash, f))
  }

  ghost predicate AreUnitsIn(hash: string -> string, means: Reading, dir: seq<File>, us: seq<Transaction>) {
    forall i :: 0 <= i < |us| ==> IsUnitIn(hash, means, dir, us[i])
  }

  lemma {:induction false} UnitsBoth(hash: string -> string, means: Reading, dir: seq<File>, us: seq<Transaction>,
                                     more: seq<Transaction>)
    requires AreUnitsIn(hash, means, dir, us) && AreUnitsIn(hash, means, dir, more)
    ensures AreUnitsIn(hash, means, dir, us + more)
  {
    hide IsUnitIn;
  }

  /** While only `r` acts and every step is whole, what is committed are units of files of its directory. */
  lemma {:induction false} WholeSteps(hash: string -> string, s0: System, before: seq<Action>, actions: seq<Action>,
                                      r: nat) returns (us: seq<Transaction>)
    requires WellFormed(hash, s0) && Initial(s0) && EveryStepWhole(hash, s0) && OnlyBy(actions, r) && r < |s0.procs|
    ensures var s, s' := Reach(hash, s0, before), Reach(hash, s0, before + actions);
            && s'.commits == s.commits + us
            && AreUnitsIn(hash, s0.means, s0.procs[r].dir, us)
    decreases |actions|
  {
    hide Next, Reach, Inv, WellFormed, Initial, AreUnitsIn, StepWholeAt, OnlyBy;
    var s := Reach(hash, s0, before);
    if actions == [] {
      us := [];
      assert before + actions == before && s.commits + [] == s.commits;
      NoUnits(hash, s0.means, s0.procs[r].dir);
    } else {
      var n := |actions| - 1;
      OnlyByFirst(actions, r);
      var some := WholeSteps(hash, s0, before, actions[..n], r);
      assert before + actions == before + actions[..n] + [actions[n]];
      ReachOne(hash, s0, before + actions[..n], actions[n]);
      assert StepWholeAt(hash, s0, before + actions[..n], actions[n]);
      var one := WholeStep(hash, s0, before + actions[..n], actions[n]);
      us := some + one;
      UnitsBoth(hash, s0.means, s0.procs[r].dir, some, one);
      assert s.commits + some + one == s.commits + (some + one);
    }
  }

  lemma {:induction false} OnlyByFirst(actions: seq<Action>, r: nat)
    requires OnlyBy(actions, r) && actions != []
    ensures OnlyBy(actions[..|actions| - 1], r) && actions[|actions| - 1].r == r
  {
  }

  lemma {:induction false} NoUnits(hash: string -> string, means: Reading, dir: seq<File>)
    ensures AreUnitsIn(hash, means, dir, [])
  {
  }

  lemma {:induction false} WholeStep(hash: string -> string, s0: System, actions: seq<Action>, a: Action)
    returns (us: seq<Transaction>)
    requires WellFormed(hash, s0) && Initial(s0) && StepWholeAt(hash, s0, actions, a) && a.r < |s0.procs|
    ensures Next(hash, Reach(hash, s0, actions), a).commits == Reach(hash, s0, actions).commits + us
    ensures AreUnitsIn(hash, s0.means, s0.procs[a.r].dir, us)
  {
    hide Next, Reach, Inv, WellFormed, Initial, Unit, ToMigration;
    var s := Reach(hash, s0, actions);
    InitialInv(hash, s0);
    StepsKeepInv(hash, s0, actions);
    SameReached(hash, s0, s0, actions);
    CommittedIsPlanned(hash, s, a);
    if Next(hash, s, a).commits == s.commits {
      us := [];
      assert s.commits + us == s.commits;
    } else {
      var p := s.procs[a.r];
      us := [Unit(s.means, ToMigration(hash, p.todo[p.k]))];
      assert IsUnitIn(hash, s0.means, s0.procs[a.r].dir, us[0]);
    }
  }

  lemma {:induction false} UnitRows(hash: string -> string, means: Reading, dir: seq<File>, us: seq<Transaction>)
    requires AreUnitsIn(hash, means, dir, us)
    ensures |RowsOf(us)| == |us|
    ensures us != [] ==> us[0].rows == [RowsOf(us)[0]]
    decreases |us|
  {
    if us != [] {
      var n := |us| - 1;
      UnitRows(hash, means, dir, us[..n]);
      UnitHasRow(hash, means, dir, us[n]);
    }
  }

  lemma {:induction false} UnitHasRow(hash: string -> string, means: Reading, dir: seq<File>, t: Transaction)
    requires IsUnitIn(hash, means, dir, t)
    ensures |t.rows| == 1 && t.rows == [t.rows[0]]
  {
    hide MigrationChecksum, Asks;
  }

  lemma {:induction false} RowsOfBoth(c: seq<Transaction>, us: seq<Transaction>)
    ensures RowsOf(c + us) == RowsOf(c) + RowsOf(us)
    decreases |us|
  {
    hide RowsOf;
    if us == [] {
      assert c + us == c;
      Atomicity.NoRows();
      assert RowsOf(c) + [] == RowsOf(c);
    } else {
      var n := |us| - 1;
      RowsOfBoth(c, us[..n]);
      assert c + us == (c + us[..n]) + [us[n]] && us == us[..n] + [us[n]];
      RowsOfAppend(c + us[..n], us[n]);
      RowsOfAppend(us[..n], us[n]);
      assert RowsOf(c) + RowsOf(us[..n]) + us[n].rows == RowsOf(c) + (RowsOf(us[..n]) + us[n].rows);
    }
  }

  /** If one row was added by whole files, one whole file was committed, the one of that row. */
  lemma {:induction false} OneWholeFile(hash: string -> string, s: System, s': System, us: seq<Transaction>,
                                        dir: seq<File>, f: File)
    requires s'.base == s.base && s'.commits == s.commits + us && DistinctNames(dir) && f in dir
    requires AreUnitsIn(hash, s.means, dir, us)
    requires Ledger(s') == Ledger(s) + [RowOf(hash, f)]
    ensures s'.commits == s.commits + [Unit(s.means, ToMigration(hash, f))]
  {
    hide RowsOf, MigrationChecksum, Asks, Strip, DistinctNames;
    RowsOfBoth(s.commits, us);
    UnitRows(hash, s.means, dir, us);
    var rows, more := s.base + RowsOf(s.commits), RowsOf(us);
    assert Ledger(s') == s.base + (RowsOf(s.commits) + more) == rows + more;
    assert more == (rows + more)[|rows|..] == (rows + [RowOf(hash, f)])[|rows|..] == [RowOf(hash, f)];
    var g :| g in dir && us[0] == Unit(s.means, ToMigration(hash, g));
    SameFile(dir, g, f);
    assert us == [us[0]];
  }

  lemma {:induction false} SameFile(dir: seq<File>, f: File, g: File)
    requires DistinctNames(dir) && f in dir && g in dir && f.name == g.name
    ensures f == g
  {
    var i :| 0 <= i < |dir| && dir[i] == f;
    var j :| 0 <= j < |dir| && dir[j] == g;
  }

  // ----- a harmful file is torn

  /** The process carries out its next file without a failure: in the end the row is there, and the work is torn. */
  lemma {:induction false} TornStep(hash: string -> string, s: System, r: nat, dir: seq<File>, ack: string,
                                    todo: seq<File>, k: nat, q: Session) returns (actions: seq<Action>)
    requires ReadyAt(s, r, dir, ack, todo, k, q) && q.open.NoTxn? && k < |todo|
    requires !MustHold(ToMigration(hash, todo[k]), ack) && !HasRow(Ledger(s), todo[k].name)
    requires !IsHarmless(Body(s.means, todo[k]))
    ensures var s' := Reach(hash, s, actions);
            && OnlyBy(actions, r) && s'.base == s.base && Ledger(s') == Ledger(s) + [RowOf(hash, todo[k])]
            && s'.commits != s.commits + [Unit(s.means, ToMigration(hash, todo[k]))]
  {
    hide Reach, ApplyOne, LedgerRows, HasRow, MustHold, MigrationChecksum, Strip, Asks, IsHarmless, DoneAt, Unit;
    var m := ToMigration(hash, todo[k]);
    actions := MigrationRun(hash, s, r, dir, ack, todo, k, q, NoFault);
    Atomicity.TornIsRecorded(s.means, s.base, q, m);
  }

  /** A plan that ends with a harmful file is followed to a step that is not whole. */
  lemma {:induction false} HarmfulPlanTears(hash: string -> string, s0: System, plan: seq<Turn>, f: File)
    requires WellFormed(hash, s0) && Initial(s0) && EndsWithFile(hash, s0, plan, f) && !IsHarmless(Body(s0.means, f))
    ensures !EveryStepWhole(hash, s0)
  {
    hide Inv, Reach, WaitingAt, LedgerRows, PendingFiles, NoDrift, NoneHeldTo, FileRows, Initial, TookTurn, Body,
         IsHarmless, ReadyAt, EveryStepWhole, MustHold, ToMigration, Unit, HasRow, RowsAfter, DistinctNames;
    var m := |plan| - 1;
    var rest, t := plan[..m], plan[m];
    var dir, ack := s0.procs[t.r].dir, s0.procs[t.r].ack;
    var a := FollowPlan(hash, s0, rest);
    var s := Reach(hash, s0, a);
    var fs := PendingFiles(dir, Ledger(s));
    InitialInv(hash, s0);
    StepsKeepInv(hash, s0, a);
    StillWaiting(s0, s, hash, rest, t.r);
    NoneHeldFits(hash, fs, ack, t.n);
    var b, q := Begin(hash, s, t.r, dir, ack, t.n - 1);
    ReachThen(hash, s0, a, b);
    NotYetRecorded(hash, s, dir, t.n - 1);
    ReadyCommits(Reach(hash, s0, a + b), t.r, dir, ack, fs, t.n - 1, q);
    var c := TornAfter(hash, s0, a + b, t.r, dir, ack, fs, t.n - 1, q);
    if EveryStepWhole(hash, s0) {
      var us := WholeSteps(hash, s0, a + b, c, t.r);
      var s1, s2 := Reach(hash, s0, a + b), Reach(hash, s0, a + b + c);
      SameReached(hash, s0, s0, a + b);
      SameReached(hash, s0, s0, a + b + c);
      PendingUnrecorded(hash, s, dir);
      OneWholeFile(hash, s1, s2, us, dir, f);
    }
  }

  lemma {:induction false} ReadyCommits(s: System, r: nat, dir: seq<File>, ack: string, todo: seq<File>, k: nat,
                                        q: Session)
    requires ReadyAt(s, r, dir, ack, todo, k, q)
    ensures s.commits == q.commits
  {
  }

  /** The next pending file is still not in the ledger. */
  lemma {:induction false} NotYetRecorded(hash: string -> string, s: System, dir: seq<File>, n: nat)
    requires Inv(hash, s) && DistinctNames(dir) && n < |PendingFiles(dir, Ledger(s))|
    ensures var fs := PendingFiles(dir, Ledger(s)); !HasRow(Ledger(s) + FileRows(hash, fs[..n]), fs[n].name)
  {
    hide Inv, LedgerRows, PendingFiles, MigrationChecksum;
    var fs := PendingFiles(dir, Ledger(s));
    PendingUnrecorded(hash, s, dir);
    HasRowAppend(Ledger(s), FileRows(hash, fs[..n]), fs[n].name);
  }

  lemma {:induction false} TornAfter(hash: string -> string, s0: System, before: seq<Action>, r: nat, dir: seq<File>,
                                     ack: string, todo: seq<File>, k: nat, q: Session) returns (actions: seq<Action>)
    requires var s := Reach(hash, s0, before);
             && ReadyAt(s, r, dir, ack, todo, k, q) && q.open.NoTxn? && k < |todo|
             && !MustHold(ToMigration(hash, todo[k]), ack) && !HasRow(Ledger(s), todo[k].name)
             && !IsHarmless(Body(s.means, todo[k]))
    ensures var s, s' := Reach(hash, s0, before), Reach(hash, s0, before + actions);
            && OnlyBy(actions, r) && Ledger(s') == Ledger(s) + [RowOf(hash, todo[k])]
            && s'.commits != s.commits + [Unit(s.means, ToMigration(hash, todo[k]))]
  {
    hide Reach, ReadyAt, MustHold, ToMigration, HasRow, LedgerRows, IsHarmless, Body, Unit;
    var s := Reach(hash, s0, before);
    actions := TornStep(hash, s, r, dir, ack, todo, k, q);
    ReachThen(hash, s0, before, actions);
  }

  /**
   * Any number of processes, with any directories, acknowledgements, failures and crashes:
   * every step of every interleaving commits nothing, or all the work of the file that the
   * acting process is at, together with its row, if and only if every file that can be
   * carried out in some order of turns is harmless.
   */
  lemma {:induction false} EveryStepWholeIff(hash: string -> string, s0: System)
    requires WellFormed(hash, s0) && Initial(s0)
    ensures EveryStepWhole(hash, s0) <==> PlansHarmless(hash, s0)
  {
    hide Initial, WellFormed, EndsWithFile, IsHarmless, Body, StepWholeAt;
    if PlansHarmless(hash, s0) {
      forall actions, a
        ensures StepWholeAt(hash, s0, actions, a)
      {
        PlansKeepWhole(hash, s0, actions);
      }
    } else {
      var plan, f :| EndsWithFile(hash, s0, plan, f) && !IsHarmless(Body(s0.means, f));
      HarmfulPlanTears(hash, s0, plan, f);
    }
  }

  // ----- one deployment

  /** All processes read the same directory and are given the same acknowledgement. */
  ghost predicate OneDeployment(s0: System, dir: seq<File>, ack: string) {
    s0.procs != [] && forall r :: 0 <= r < |s0.procs| ==> s0.procs[r].dir == dir && s0.procs[r].ack == ack
  }

  /** What the last turn of a plan is. */
  lemma {:induction false} LastTurn(hash: string -> string, s0: System, dir: seq<File>, ack: string, plan: seq<Turn>)
    requires OneDeployment(s0, dir, ack) && ValidPlan(hash, s0, plan) && plan != []
    ensures var rest, t := plan[..|plan| - 1], plan[|plan| - 1];
            var rows := RowsAfter(hash, s0, rest);
            && ValidPlan(hash, s0, rest) && PendingOf(s0, rows, t.r) == PendingFiles(dir, rows)
            && NoneHeldTo(hash, PendingFiles(dir, rows), ack, t.n) && (t.n > 0 ==> NoDrift(hash, dir, rows))
            && RowsAfter(hash, s0, plan) == rows + FileRows(hash, PendingFiles(dir, rows)[..t.n])
  {
    hide PendingFiles, MustHold, ToMigration, FileRows, LedgerRows, NoDrift, TookTurn;
  }

  /** A turn after a turn is one turn. */
  lemma {:induction false} TurnsJoin(hash: string -> string, dir: seq<File>, ack: string, rows: seq<Row>, k: nat,
                                     n: nat)
    requires NeverEmpty(hash) && DistinctNames(dir) && NoneHeldTo(hash, PendingFiles(dir, rows), ack, k)
    requires NoneHeldTo(hash, PendingFiles(dir, rows)[k..], ack, n)
    ensures var fs := PendingFiles(dir, rows);
            && NoneHeldTo(hash, fs, ack, k + n)
            && rows + FileRows(hash, fs[..k]) + FileRows(hash, fs[k..][..n]) == rows + FileRows(hash, fs[..k + n])
            && PendingFiles(dir, rows + FileRows(hash, fs[..k + n])) == fs[k + n..]
  {
    hide PendingFiles, MustHold, ToMigration, FileRows, NeverEmpty, DistinctNames;
    var fs := PendingFiles(dir, rows);
    forall j | 0 <= j < k + n
      ensures !MustHold(ToMigration(hash, fs[j]), ack)
    {
      assert j >= k ==> fs[k..][j - k] == fs[j];
    }
    PendingAfter(hash, dir, rows, k + n, |dir|);
    assert dir[..|dir|] == dir;
    FileRowsMore(hash, fs, k, n, rows);
  }

  /** Any plan amounts to one turn: the first `m` pending files, none of which must be held. */
  lemma {:induction false} PlanIsOneTurn(hash: string -> string, s0: System, dir: seq<File>, ack: string,
                                         plan: seq<Turn>) returns (m: nat)
    requires NeverEmpty(hash) && DistinctNames(dir) && OneDeployment(s0, dir, ack) && ValidPlan(hash, s0, plan)
    ensures var fs := PendingFiles(dir, Ledger(s0));
            && NoneHeldTo(hash, fs, ack, m) && RowsAfter(hash, s0, plan) == Ledger(s0) + FileRows(hash, fs[..m])
            && PendingFiles(dir, RowsAfter(hash, s0, plan)) == fs[m..]
            && (!NoDrift(hash, dir, Ledger(s0)) ==> m == 0)
    decreases |plan|
  {
    hide PendingFiles, NoneHeldTo, FileRows, LedgerRows, NeverEmpty, DistinctNames, NoDrift, TookTurn, RowsAfter,
         ValidPlan, OneDeployment;
    var fs := PendingFiles(dir, Ledger(s0));
    if plan == [] {
      m := 0;
      NothingPlanned(hash, s0, fs, ack);
    } else {
      var rest, t := plan[..|plan| - 1], plan[|plan| - 1];
      LastTurn(hash, s0, dir, ack, plan);
      var k := PlanIsOneTurn(hash, s0, dir, ack, rest);
      m := k + t.n;
      HeldBound(hash, fs, ack, k);
      TurnsJoin(hash, dir, ack, Ledger(s0), k, t.n);
      NothingPlanned(hash, s0, fs, ack);
      if !NoDrift(hash, dir, Ledger(s0)) {
        assert fs[..0] == [] && fs[0..] == fs;
      }
    }
  }

  lemma {:induction false} HeldBound(hash: string -> string, fs: seq<File>, ack: string, k: nat)
    requires NoneHeldTo(hash, fs, ack, k)
    ensures k <= |fs|
  {
  }

  lemma {:induction false} NothingPlanned(hash: string -> string, s0: System, fs: seq<File>, ack: string)
    ensures RowsAfter(hash, s0, []) == Ledger(s0) == Ledger(s0) + FileRows(hash, []) && NoneHeldTo(hash, fs, ack, 0)
    ensures fs[..0] == [] && fs[0..] == fs
  {
    hide LedgerRows;
  }

  lemma {:induction false} FileRowsMore(hash: string -> string, fs: seq<File>, k: nat, n: nat, rows: seq<Row>)
    requires k + n <= |fs|
    ensures rows + FileRows(hash, fs[..k]) + FileRows(hash, fs[k..][..n]) == rows + FileRows(hash, fs[..k + n])
  {
    hide MigrationChecksum;
    assert fs[k..][..n] == fs[k..k + n];
  }

  lemma {:induction false} FirstTurn(hash: string -> string, s0: System, dir: seq<File>, ack: string, k: nat)
    requires OneDeployment(s0, dir, ack) && NoDrift(hash, dir, Ledger(s0))
    requires NoneHeldTo(hash, PendingFiles(dir, Ledger(s0)), ack, k + 1)
    ensures EndsWithFile(hash, s0, [Turn(0, k + 1)], PendingFiles(dir, Ledger(s0))[k])
  {
    hide PendingFiles, MustHold, ToMigration, FileRows, LedgerRows, NoDrift;
    var plan := [Turn(0, k + 1)];
    assert s0.procs[0].dir == dir && s0.procs[0].ack == ack;
    assert ValidTurn(hash, s0, Ledger(s0), plan[0]);
    PlanThen(hash, s0, [], plan[0]);
    assert [] + [plan[0]] == plan && plan[..0] == [];
  }

  /**
   * Any number of copies of one deployment are atomic together if and only if the sequential
   * runner is: a file drifts, so that nothing is carried out, or every pending file before
   * the first that must be held is harmless.
   */
  lemma {:induction false} OneDeploymentIff(hash: string -> string, s0: System, dir: seq<File>, ack: string)
    requires WellFormed(hash, s0) && Initial(s0) && OneDeployment(s0, dir, ack)
    ensures EveryStepWhole(hash, s0) <==>
              (NoDrift(hash, dir, Ledger(s0)) ==>
                 RunHarmless(s0.means, ToMigrations(hash, PendingFiles(dir, Ledger(s0))), ack))
  {
    hide PendingFiles, MustHold, LedgerRows, NoDrift, IsHarmless, Asks, Strip, MigrationChecksum, EveryStepWhole,
         EndsWithFile, Initial, NeverEmpty, DistinctNames;
    var fs := PendingFiles(dir, Ledger(s0));
    var ms := ToMigrations(hash, fs);
    assert DistinctNames(dir) by { assert s0.procs[0].dir == dir; }
    EveryStepWholeIff(hash, s0);
    if NoDrift(hash, dir, Ledger(s0)) && PlansHarmless(hash, s0) {
      forall k | 0 <= k < |ms| && NoneHeld(ms[..k + 1], ack)
        ensures IsHarmless(Asks(s0.means, ms[k].sql))
      {
        assert forall j :: 0 <= j < k + 1 ==> ms[..k + 1][j] == ToMigration(hash, fs[j]);
        FirstTurn(hash, s0, dir, ack, k);
      }
    }
    if NoDrift(hash, dir, Ledger(s0)) ==> RunHarmless(s0.means, ms, ack) {
      forall plan, f | EndsWithFile(hash, s0, plan, f)
        ensures IsHarmless(Body(s0.means, f))
      {
        var k := LastFile(hash, s0, dir, ack, plan, f);
        assert forall j :: 0 <= j < k + 1 ==> ms[..k + 1][j] == ToMigration(hash, fs[j]);
      }
    }
  }

  /** The last file of a plan is a pending file at or before which none must be held, and nothing drifts. */
  lemma {:induction false} LastFile(hash: string -> string, s0: System, dir: seq<File>, ack: string,
                                    plan: seq<Turn>, f: File) returns (k: nat)
    requires NeverEmpty(hash) && DistinctNames(dir) && OneDeployment(s0, dir, ack) && EndsWithFile(hash, s0, plan, f)
    ensures var fs := PendingFiles(dir, Ledger(s0));
            NoDrift(hash, dir, Ledger(s0)) && NoneHeldTo(hash, fs, ack, k + 1) && f == fs[k]
  {
    hide PendingFiles, NoneHeldTo, FileRows, LedgerRows, NeverEmpty, DistinctNames, NoDrift, TookTurn, RowsAfter,
         ValidPlan, OneDeployment;
    var rest, t := plan[..|plan| - 1], plan[|plan| - 1];
    LastTurn(hash, s0, dir, ack, plan);
    var m := PlanIsOneTurn(hash, s0, dir, ack, rest);
    var fs := PendingFiles(dir, Ledger(s0));
    HeldBound(hash, fs, ack, m);
    TurnsJoin(hash, dir, ack, Ledger(s0), m, t.n);
    HeldBound(hash, fs, ack, m + t.n);
    k := m + t.n - 1;
    if !NoDrift(hash, dir, Ledger(s0)) {
      NothingPlanned(hash, s0, fs, ack);
    }
  }
}
