/**
 * The sequential runner is one of the machine's runs: a process that is alone and
 * meets the given failures commits exactly what the runner's loop commits.
 */
module SoloRun {
  import opened Text
  import opened Scanner
  import opened Stripper
  import opened SqlStatements
  import opened Checksum
  import opened Database
  import opened Harmless
  import opened Runner
  import opened RunLaws
  import opened Interleaving
  import opened Safety

  /** One process that has not started, on an empty ledger. */
  function Fresh(means: Reading, dir: seq<File>, ack: string, base: seq<Row>, commits: seq<Transaction>): (s: System) {
    System(means, base, commits, None, [Process(dir, ack, Waiting, [], 0, 0, NoTxn)])
  }

  lemma {:induction false} ReachOne(hash: string -> string, s: System, actions: seq<Action>, a: Action)
    ensures Reach(hash, s, actions + [a]) == Next(hash, Reach(hash, s, actions), a)
  {
    hide Next;
    assert (actions + [a])[..|actions|] == actions;
  }

  lemma {:induction false} ReachThen(hash: string -> string, s: System, a: seq<Action>, b: seq<Action>)
    ensures Reach(hash, s, a + b) == Reach(hash, Reach(hash, s, a), b)
    decreases |b|
  {
    hide Next;
    if b == [] {
      assert a + b == a;
    } else {
      var n := |b| - 1;
      ReachThen(hash, s, a, b[..n]);
      assert (a + b)[..|a| + n] == a + b[..n];
    }
  }

  /** The process is in the body of its `k`th pending file, with `j` statements done. */
  ghost predicate InBodyAt(s: System, r: nat, dir: seq<File>, ack: string, todo: seq<File>, k: nat, j: nat, q: Session)
    {
    && r < |s.procs| && s.lock == Some(r) && s.commits == q.commits
    && s.procs[r] == Process(dir, ack, Working, todo, k, j, q.open)
  }

  ghost predicate ReadyAt(s: System, r: nat, dir: seq<File>, ack: string, todo: seq<File>, k: nat, q: Session) {
    && r < |s.procs| && s.lock == Some(r) && s.commits == q.commits
    && s.procs[r].dir == dir && s.procs[r].ack == ack && s.procs[r].todo == todo
    && s.procs[r].pc == Ready && s.procs[r].k == k && s.procs[r].open == q.open
  }

  /** The process has not begun, and nobody holds the lock. */
  ghost predicate WaitingAt(s: System, r: nat, dir: seq<File>, ack: string) {
    && r < |s.procs| && s.lock == None
    && s.procs[r].dir == dir && s.procs[r].ack == ack && s.procs[r].pc == Waiting && s.procs[r].open == NoTxn
  }

  ghost predicate LockedAt(s: System, r: nat, dir: seq<File>, ack: string) {
    && r < |s.procs| && s.lock == Some(r)
    && s.procs[r].dir == dir && s.procs[r].ack == ack && s.procs[r].pc == Locked && s.procs[r].open == NoTxn
  }

  /** All actions are those of process `r`. */
  ghost predicate OnlyBy(actions: seq<Action>, r: nat) {
    forall i :: 0 <= i < |actions| ==> actions[i].r == r
  }

  lemma {:induction false} OnlyByBoth(a: seq<Action>, b: seq<Action>, r: nat)
    requires OnlyBy(a, r) && OnlyBy(b, r)
    ensures OnlyBy(a + b, r)
  {
  }

  lemma {:induction false} AcquireOne(hash: string -> string, s: System, r: nat, dir: seq<File>, ack: string)
    requires WaitingAt(s, r, dir, ack)
    ensures var s' := Next(hash, s, Acquire(r));
            LockedAt(s', r, dir, ack) && s'.commits == s.commits && s'.base == s.base && s'.means == s.means
  {
  }

  ghost predicate NoDrift(hash: string -> string, dir: seq<File>, rows: seq<Row>) {
    forall f :: f in dir ==> !Drifts(hash, rows, f)
  }

  lemma {:induction false} ReadOne(hash: string -> string, s: System, r: nat, dir: seq<File>, ack: string)
    requires LockedAt(s, r, dir, ack)
    ensures var s' := Next(hash, s, ReadLedger(r));
            && s'.base == s.base && s'.means == s.means
            && if NoDrift(hash, dir, Ledger(s))
               then ReadyAt(s', r, dir, ack, PendingFiles(dir, Ledger(s)), 0, Session(s.commits, NoTxn))
               else DoneAt(Next(hash, s', Release(r)), r, s.commits)
  {
    hide Drifts, PendingFiles, LedgerRows;
    if !NoDrift(hash, dir, Ledger(s)) {
      var f :| f in dir && Drifts(hash, Ledger(s), f);
      var x :| 0 <= x < |dir| && dir[x] == f;
      assert Drifts(hash, Ledger(s), s.procs[r].dir[x]);
    }
  }

  /** Without drift, a process that is let run reaches its loop with the runner's pending list. */
  lemma {:induction false} StartUp(hash: string -> string, s: System, r: nat, dir: seq<File>, ack: string)
    requires WaitingAt(s, r, dir, ack) && NoDrift(hash, dir, Ledger(s))
    ensures var s' := Reach(hash, s, [Acquire(r), ReadLedger(r)]);
            s'.base == s.base && s'.means == s.means &&
            ReadyAt(s', r, dir, ack, PendingFiles(dir, Ledger(s)), 0, Session(s.commits, NoTxn))
    ensures OnlyBy([Acquire(r), ReadLedger(r)], r)
  {
    hide PendingFiles, LedgerRows, Next, ReadyAt, WaitingAt, LockedAt, NoDrift, DoneAt;
    AcquireOne(hash, s, r, dir, ack);
    ReadOne(hash, Next(hash, s, Acquire(r)), r, dir, ack);
    ReachNothing(hash, s);
    ReachTwo(hash, s, [], Acquire(r), ReadLedger(r));
    assert [] + [Acquire(r)] + [ReadLedger(r)] == [Acquire(r), ReadLedger(r)];
  }

  lemma {:induction false} BeginOne(hash: string -> string, s: System, r: nat, dir: seq<File>, ack: string,
                                    todo: seq<File>, k: nat, q: Session)
    requires ReadyAt(s, r, dir, ack, todo, k, q) && k < |todo| && !MustHold(ToMigration(hash, todo[k]), ack)
    ensures InBodyAt(Next(hash, s, Proceed(r)), r, dir, ack, todo, k, 0, ExecTxn(q, Begin))
    ensures Next(hash, s, Proceed(r)).base == s.base && Next(hash, s, Proceed(r)).means == s.means
  {
    hide MustHold, ToMigration, ExecTxn;
  }

  lemma {:induction false} ExecOne(hash: string -> string, s: System, r: nat, dir: seq<File>, ack: string,
                                   todo: seq<File>, k: nat, j: nat, q: Session)
    requires InBodyAt(s, r, dir, ack, todo, k, j, q) && k < |todo| && j < |Body(s.means, todo[k])|
    ensures InBodyAt(Next(hash, s, Exec(r, false)), r, dir, ack, todo, k, j + 1, ExecIn(q, Body(s.means, todo[k]), j))
    ensures Next(hash, s, Exec(r, false)).base == s.base && Next(hash, s, Exec(r, false)).means == s.means
  {
    hide Body, ExecIn;
  }

  lemma {:induction false} OneFilePending(hash: string -> string, f: File)
    ensures PendingFiles([f], LedgerRows([], [])) == [f]
    ensures !Drifts(hash, LedgerRows([], []), f)
  {
    assert [f][..0] == [];
    assert LedgerRows([], []) == [];
  }

  ghost predicate AbortingAt(s: System, r: nat, q: Session) {
    && r < |s.procs| && s.lock == Some(r) && s.commits == q.commits
    && s.procs[r].pc == Aborting && s.procs[r].open == q.open
  }

  ghost predicate InsertedAt(s: System, r: nat, dir: seq<File>, ack: string, todo: seq<File>, k: nat, q: Session) {
    && r < |s.procs| && s.lock == Some(r) && s.commits == q.commits
    && s.procs[r].dir == dir && s.procs[r].ack == ack && s.procs[r].todo == todo
    && s.procs[r].pc == Inserted && s.procs[r].k == k && s.procs[r].open == q.open
  }

  /** The process has gone through `finally`. */
  ghost predicate DoneAt(s: System, r: nat, commits: seq<Transaction>) {
    && r < |s.procs| && s.lock == None && s.commits == commits && s.procs[r].pc == Stopped
  }

  lemma {:induction false} ExecFails(hash: string -> string, s: System, r: nat, dir: seq<File>, ack: string,
                                     todo: seq<File>, k: nat, j: nat, q: Session)
    requires InBodyAt(s, r, dir, ack, todo, k, j, q) && k < |todo| && j < |Body(s.means, todo[k])|
    ensures AbortingAt(Next(hash, s, Exec(r, true)), r, FailQuery(q))
    ensures Next(hash, s, Exec(r, true)).base == s.base && Next(hash, s, Exec(r, true)).means == s.means
  {
    hide Body;
  }

  lemma {:induction false} InsertOne(hash: string -> string, s: System, r: nat, dir: seq<File>, ack: string,
                                     todo: seq<File>, k: nat, q: Session, fails: bool)
    requires k < |todo| && InBodyAt(s, r, dir, ack, todo, k, |Body(s.means, todo[k])|, q)
    ensures var s' := Next(hash, s, Insert(r, fails));
            var m := ToMigration(hash, todo[k]);
            && s'.base == s.base && s'.means == s.means
            && if fails || Collides(s.base, q, m.name) then AbortingAt(s', r, q)
               else InsertedAt(s', r, dir, ack, todo, k, InsertRow(q, Row(m.name, m.checksum)))
  {
    hide Body, Collides, InsertRow, MigrationChecksum, Strip;
  }

  lemma {:induction false} FinishOne(hash: string -> string, s: System, r: nat, dir: seq<File>, ack: string,
                                     todo: seq<File>, k: nat, q: Session, fails: bool)
    requires InsertedAt(s, r, dir, ack, todo, k, q)
    ensures var s' := Next(hash, s, Finish(r, fails));
            s'.base == s.base && s'.means == s.means &&
            if fails && !q.open.NoTxn? then AbortingAt(s', r, q)
            else ReadyAt(s', r, dir, ack, todo, k + 1, ExecTxn(q, Commit))
  {
    hide ExecTxn;
  }

  /** `ROLLBACK`, then `finally`. */
  lemma {:induction false} UndoAndRelease(hash: string -> string, s: System, r: nat, q: Session)
    requires AbortingAt(s, r, q)
    ensures DoneAt(Next(hash, Next(hash, s, Undo(r)), Release(r)), r, ExecTxn(q, Rollback).commits)
  {
  }

  lemma {:induction false} StopOne(hash: string -> string, s: System, r: nat, dir: seq<File>, ack: string,
                                   todo: seq<File>, k: nat, q: Session)
    requires ReadyAt(s, r, dir, ack, todo, k, q)
    requires k < |todo| ==> MustHold(ToMigration(hash, todo[k]), ack)
    ensures DoneAt(Next(hash, Next(hash, s, Proceed(r)), Release(r)), r, q.commits)
  {
    hide MustHold, ToMigration;
  }

  /** The machine's body is the runner's body. */
  lemma {:induction false} BodyRun(hash: string -> string, s: System, r: nat, dir: seq<File>, ack: string,
                                   todo: seq<File>, k: nat, j: nat, q: Session, fault: Fault)
    returns (actions: seq<Action>)
    requires k < |todo| && j <= |Body(s.means, todo[k])| && InBodyAt(s, r, dir, ack, todo, k, j, q)
    ensures var s' := Reach(hash, s, actions);
            var e := ExecBody(q, Body(s.means, todo[k]), j, fault);
            && OnlyBy(actions, r) && s'.base == s.base && s'.means == s.means
            && if e.ok then InBodyAt(s', r, dir, ack, todo, k, |Body(s.means, todo[k])|, e.session)
               else AbortingAt(s', r, e.session)
    decreases |Body(s.means, todo[k])| - j
  {
    hide Body, InBodyAt, AbortingAt, Next, ExecIn, OnlyBy, Reach;
    var body := Body(s.means, todo[k]);
    ReachNothing(hash, s);
    OnlyOne(Exec(r, true));
    OnlyOne(Exec(r, false));
    if j == |body| {
      actions := [];
      OnlyNothing(r);
    } else if fault == InBody(j) {
      ExecFails(hash, s, r, dir, ack, todo, k, j, q);
      ReachOne(hash, s, [], Exec(r, true));
      actions := [] + [Exec(r, true)];
    } else {
      ExecOne(hash, s, r, dir, ack, todo, k, j, q);
      ReachOne(hash, s, [], Exec(r, false));
      var first := [] + [Exec(r, false)];
      var rest := BodyRun(hash, Reach(hash, s, first), r, dir, ack, todo, k, j + 1, ExecIn(q, body, j), fault);
      ReachThen(hash, s, first, rest);
      OnlyByBoth(first, rest, r);
      actions := first + rest;
    }
  }

  lemma {:induction false} OnlyOne(a: Action)
    ensures OnlyBy([] + [a], a.r)
  {
  }

  lemma {:induction false} OnlyNothing(r: nat)
    ensures OnlyBy([], r)
  {
  }

  lemma {:induction false} ReachTwo(hash: string -> string, s: System, actions: seq<Action>, a: Action, b: Action)
    ensures Reach(hash, s, actions + [a] + [b]) == Next(hash, Next(hash, Reach(hash, s, actions), a), b)
  {
    hide Next, Reach;
    ReachOne(hash, s, actions, a);
    ReachOne(hash, s, actions + [a], b);
  }

  /** The machine's migration is the runner's migration. */
  lemma {:induction false} MigrationRun(hash: string -> string, s: System, r: nat, dir: seq<File>, ack: string,
                                        todo: seq<File>, k: nat, q: Session, fault: Fault)
    returns (actions: seq<Action>)
    requires ReadyAt(s, r, dir, ack, todo, k, q) && k < |todo| && !MustHold(ToMigration(hash, todo[k]), ack)
    ensures var s' := Reach(hash, s, actions);
            var one := ApplyOne(s.means, s.base, q, ToMigration(hash, todo[k]), fault);
            && OnlyBy(actions, r) && s'.base == s.base && s'.means == s.means
            && if one.ok then ReadyAt(s', r, dir, ack, todo, k + 1, one.session)
               else DoneAt(s', r, one.session.commits)
  {
    hide InBodyAt, AbortingAt, InsertedAt, ReadyAt, DoneAt, Next, Reach, ExecTxn, InsertRow, Collides, MustHold,
         ExecBody, Asks, Strip, MigrationChecksum;
    var m := ToMigration(hash, todo[k]);
    assert Asks(s.means, m.sql) == Body(s.means, todo[k]);
    BeginOne(hash, s, r, dir, ack, todo, k, q);
    ReachNothing(hash, s);
    ReachOne(hash, s, [], Proceed(r));
    var a := [] + [Proceed(r)];
    var b := BodyRun(hash, Reach(hash, s, a), r, dir, ack, todo, k, 0, ExecTxn(q, Begin), fault);
    ReachThen(hash, s, a, b);
    a := a + b;
    var body := ExecBody(ExecTxn(q, Begin), Body(s.means, todo[k]), 0, fault);
    if !body.ok {
      UndoAndRelease(hash, Reach(hash, s, a), r, body.session);
      ReachTwo(hash, s, a, Undo(r), Release(r));
      UndoKeepsBase(hash, Reach(hash, s, a), r);
      actions := a + [Undo(r)] + [Release(r)];
    } else {
      InsertOne(hash, Reach(hash, s, a), r, dir, ack, todo, k, body.session, fault == InInsert);
      ReachOne(hash, s, a, Insert(r, fault == InInsert));
      a := a + [Insert(r, fault == InInsert)];
      if fault == InInsert || Collides(s.base, body.session, m.name) {
        UndoAndRelease(hash, Reach(hash, s, a), r, body.session);
        ReachTwo(hash, s, a, Undo(r), Release(r));
        UndoKeepsBase(hash, Reach(hash, s, a), r);
        actions := a + [Undo(r)] + [Release(r)];
      } else {
        var inserted := InsertRow(body.session, Row(m.name, m.checksum));
        FinishOne(hash, Reach(hash, s, a), r, dir, ack, todo, k, inserted, fault == InCommit);
        ReachOne(hash, s, a, Finish(r, fault == InCommit));
        a := a + [Finish(r, fault == InCommit)];
        if RefusesCommit(inserted, fault) {
          UndoAndRelease(hash, Reach(hash, s, a), r, inserted);
          ReachTwo(hash, s, a, Undo(r), Release(r));
          UndoKeepsBase(hash, Reach(hash, s, a), r);
          actions := a + [Undo(r)] + [Release(r)];
        } else {
          actions := a;
        }
      }
    }
  }

  lemma {:induction false} ReachNothing(hash: string -> string, s: System)
    ensures Reach(hash, s, []) == s
  {
  }

  lemma {:induction false} UndoKeepsBase(hash: string -> string, s: System, r: nat)
    ensures Next(hash, Next(hash, s, Undo(r)), Release(r)).base == s.base
    ensures Next(hash, Next(hash, s, Undo(r)), Release(r)).means == s.means
  {
    hide Next;
    StepKeepsDirs(hash, s, Undo(r));
    StepKeepsDirs(hash, Next(hash, s, Undo(r)), Release(r));
  }

  lemma {:induction false} LoopRun(hash: string -> string, s: System, r: nat, dir: seq<File>, ack: string,
                                   todo: seq<File>, k: nat, q: Session, faults: string -> Fault)
    returns (actions: seq<Action>)
    requires k <= |todo| && ReadyAt(s, r, dir, ack, todo, k, q)
    ensures OnlyBy(actions, r)
    ensures DoneAt(Reach(hash, s, actions), r,
                   ApplyFrom(s.means, s.base, q, ToMigrations(hash, todo), ack, faults, k).session.commits)
    decreases |todo| - k
  {
    hide ReadyAt, DoneAt, Next, Reach, MustHold, ApplyOne, ToMigration;
    if k == |todo| || MustHold(ToMigration(hash, todo[k]), ack) {
      StopOne(hash, s, r, dir, ack, todo, k, q);
      ReachNothing(hash, s);
      ReachTwo(hash, s, [], Proceed(r), Release(r));
      actions := [] + [Proceed(r)] + [Release(r)];
    } else {
      var fault := faults(ToMigrations(hash, todo)[k].name);
      actions := MigrationRun(hash, s, r, dir, ack, todo, k, q, fault);
      var one := ApplyOne(s.means, s.base, q, ToMigration(hash, todo[k]), fault);
      if one.ok {
        var rest := LoopRun(hash, Reach(hash, s, actions), r, dir, ack, todo, k + 1, one.session, faults);
        ReachThen(hash, s, actions, rest);
        actions := actions + rest;
      }
    }
  }

  /** What a sequential run leaves committed: nothing new if a file drifts. */
  ghost function RunCommits(means: Reading, hash: string -> string, dir: seq<File>, base: seq<Row>,
                            commits: seq<Transaction>, ack: string, faults: string -> Fault): (r: seq<Transaction>) {
    if NoDrift(hash, dir, LedgerRows(base, commits))
    then RunOnce(means, hash, dir, base, commits, ack, faults).session.commits
    else commits
  }

  /**
   * Whatever the other processes are, whenever the lock is free a process that has not begun
   * can be let run alone, with any failures, and then commits exactly what the sequential
   * runner commits, and leaves the lock free. What holds of all runs of the machine holds of
   * the runner.
   */
  lemma {:induction false} RunnerIsAMachineRun(hash: string -> string, s: System, r: nat, dir: seq<File>, ack: string,
                                               faults: string -> Fault) returns (actions: seq<Action>)
    requires WaitingAt(s, r, dir, ack)
    ensures OnlyBy(actions, r)
    ensures DoneAt(Reach(hash, s, actions), r, RunCommits(s.means, hash, dir, s.base, s.commits, ack, faults))
  {
    hide ReadyAt, DoneAt, Reach, NoDrift, PendingFiles, LedgerRows, ApplyFrom, WaitingAt, LockedAt, Next;
    var a := [Acquire(r), ReadLedger(r)];
    if NoDrift(hash, dir, Ledger(s)) {
      StartUp(hash, s, r, dir, ack);
      var b := LoopRun(hash, Reach(hash, s, a), r, dir, ack, PendingFiles(dir, Ledger(s)), 0,
                       Session(s.commits, NoTxn), faults);
      ReachThen(hash, s, a, b);
      OnlyByBoth(a, b, r);
      actions := a + b;
    } else {
      AcquireOne(hash, s, r, dir, ack);
      ReadOne(hash, Next(hash, s, Acquire(r)), r, dir, ack);
      ReachNothing(hash, s);
      ReachTwo(hash, s, [], Acquire(r), ReadLedger(r));
      ReachOne(hash, s, [] + [Acquire(r)] + [ReadLedger(r)], Release(r));
      actions := [] + [Acquire(r)] + [ReadLedger(r)] + [Release(r)];
    }
  }
}
