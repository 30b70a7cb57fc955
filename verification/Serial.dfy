/**
 * Any interleaving of runners is serial: the ledger is that of turns which some of the
 * processes take one after the other, each for a number of its pending files.
 */
module Serial {
  import opened Text
  import opened Scanner
  import opened Stripper
  import opened SqlStatements
  import opened Checksum
  import opened Database
  import opened Harmless
  import opened Runner
  import opened RunLaws
  import opened Interleaving
  import opened Safety
  import opened SoloRun

  // ----- plans

  /** Process `r` has its first `n` pending files recorded. */
  datatype Turn = Turn(r: nat, n: nat)

  function PendingOf(s0: System, rows: seq<Row>, r: nat): (fs: seq<File>) {
    if r < |s0.procs| then PendingFiles(s0.procs[r].dir, rows) else []
  }

  function RowsThen(hash: string -> string, s0: System, rows: seq<Row>, t: Turn): (r: seq<Row>) {
    var fs := PendingOf(s0, rows, t.r);
    if t.n <= |fs| then rows + FileRows(hash, fs[..t.n]) else rows
  }

  /** The ledger after the turns of the plan. */
  function RowsAfter(hash: string -> string, s0: System, plan: seq<Turn>): (rows: seq<Row>) {
    if plan == [] then Ledger(s0)
    else RowsThen(hash, s0, RowsAfter(hash, s0, plan[..|plan| - 1]), plan[|plan| - 1])
  }

  ghost predicate NoneHeldTo(hash: string -> string, fs: seq<File>, ack: string, n: nat) {
    n <= |fs| && forall j :: 0 <= j < n ==> !MustHold(ToMigration(hash, fs[j]), ack)
  }

  /** With this ledger the process can carry out that many files. */
  ghost predicate ValidTurn(hash: string -> string, s0: System, rows: seq<Row>, t: Turn) {
    && t.r < |s0.procs| && NoneHeldTo(hash, PendingOf(s0, rows, t.r), s0.procs[t.r].ack, t.n)
    && (t.n > 0 ==> NoDrift(hash, s0.procs[t.r].dir, rows))
  }

  ghost predicate TookTurn(plan: seq<Turn>, r: nat) {
    exists k :: 0 <= k < |plan| && plan[k].r == r
  }

  /** No process has two turns. */
  ghost predicate ValidPlan(hash: string -> string, s0: System, plan: seq<Turn>) {
    plan == [] ||
    var rest, t := plan[..|plan| - 1], plan[|plan| - 1];
    ValidPlan(hash, s0, rest) && ValidTurn(hash, s0, RowsAfter(hash, s0, rest), t) && !TookTurn(rest, t.r)
  }

  /** `f` is the last file that the plan carries out. */
  ghost predicate EndsWithFile(hash: string -> string, s0: System, plan: seq<Turn>, f: File) {
    && plan != [] && ValidPlan(hash, s0, plan)
    && var t := plan[|plan| - 1];
       var fs := PendingOf(s0, RowsAfter(hash, s0, plan[..|plan| - 1]), t.r);
       0 < t.n <= |fs| && f == fs[t.n - 1]
  }

  /** Every file that can be carried out in some order of turns is harmless. */
  ghost predicate PlansHarmless(hash: string -> string, s0: System) {
    forall plan, f :: EndsWithFile(hash, s0, plan, f) ==> IsHarmless(Body(s0.means, f))
  }

  lemma {:induction false} PlanThen(hash: string -> string, s0: System, plan: seq<Turn>, t: Turn)
    requires ValidPlan(hash, s0, plan) && !TookTurn(plan, t.r)
    requires ValidTurn(hash, s0, RowsAfter(hash, s0, plan), t)
    ensures ValidPlan(hash, s0, plan + [t])
    ensures RowsAfter(hash, s0, plan + [t]) == RowsThen(hash, s0, RowsAfter(hash, s0, plan), t)
    ensures forall x :: TookTurn(plan + [t], x) <==> TookTurn(plan, x) || x == t.r
  {
    hide ValidTurn, RowsThen;
    assert (plan + [t])[..|plan|] == plan;
    forall x
      ensures TookTurn(plan + [t], x) <==> TookTurn(plan, x) || x == t.r
    {
      TookThen(plan, t, x);
    }
  }

  lemma {:induction false} TookThen(plan: seq<Turn>, t: Turn, x: nat)
    ensures TookTurn(plan + [t], x) <==> TookTurn(plan, x) || x == t.r
  {
    if k :| 0 <= k < |plan| && plan[k].r == x {
      assert (plan + [t])[k].r == x;
    }
    assert (plan + [t])[|plan|] == t;
  }

  // ----- the invariant

  ghost predicate SameProcesses(s0: System, s: System) {
    && s.base == s0.base && s.means == s0.means && |s.procs| == |s0.procs|
    && forall x :: 0 <= x < |s.procs| ==> s.procs[x].dir == s0.procs[x].dir && s.procs[x].ack == s0.procs[x].ack
  }

  /** How many of its files the process has got to without holding. */
  function Started(p: Process): (n: nat) {
    if p.pc == Ready then p.k else p.k + 1
  }

  /** The process is in its loop, with a plan made from `rows`. */
  ghost predicate InLoop(hash: string -> string, s: System, p: Process, rows: seq<Row>) {
    && NoDrift(hash, p.dir, rows) && p.todo == PendingFiles(p.dir, rows)
    && NoneHeldTo(hash, p.todo, p.ack, Started(p)) && Position(p) <= |p.todo|
    && Ledger(s) == rows + FileRows(hash, p.todo[..Position(p)])
  }

  /** The turn of the process that holds the lock, which began with the ledger `rows`. */
  ghost predicate InTurn(hash: string -> string, s0: System, s: System, r: nat, rows: seq<Row>) {
    && r < |s.procs|
    && match s.procs[r].pc
       case Locked => Ledger(s) == rows
       case Ready => InLoop(hash, s, s.procs[r], rows)
       case Working => InLoop(hash, s, s.procs[r], rows)
       case Inserted => InLoop(hash, s, s.procs[r], rows)
       case _ => exists n :: TurnIs(hash, s0, s, rows, Turn(r, n))
  }

  ghost predicate TurnIs(hash: string -> string, s0: System, s: System, rows: seq<Row>, t: Turn) {
    ValidTurn(hash, s0, rows, t) && Ledger(s) == RowsThen(hash, s0, rows, t)
  }

  ghost predicate SerialInv(hash: string -> string, s0: System, s: System, plan: seq<Turn>) {
    && SameProcesses(s0, s) && ValidPlan(hash, s0, plan)
    && (forall x :: 0 <= x < |s.procs| && s.procs[x].pc == Waiting ==> !TookTurn(plan, x))
    && match s.lock
       case None => Ledger(s) == RowsAfter(hash, s0, plan)
       case Some(r) => !TookTurn(plan, r) && InTurn(hash, s0, s, r, RowsAfter(hash, s0, plan))
  }

  /** What the turn amounts to so far. */
  lemma {:induction false} TurnSoFar(hash: string -> string, s0: System, s: System, r: nat, rows: seq<Row>)
    returns (n: nat)
    requires SameProcesses(s0, s) && InTurn(hash, s0, s, r, rows)
    ensures TurnIs(hash, s0, s, rows, Turn(r, n))
  {
    hide PendingFiles, MustHold, ToMigration, Drifts, LedgerRows, FileRows;
    var p := s.procs[r];
    if p.pc == Locked {
      n := 0;
      NoFileRows(hash, rows);
    } else if p.pc in {Ready, Working, Inserted} {
      n := Position(p);
    } else {
      n :| TurnIs(hash, s0, s, rows, Turn(r, n));
    }
  }

  lemma {:induction false} NoFileRows(hash: string -> string, rows: seq<Row>)
    ensures rows + FileRows(hash, []) == rows
  {
  }

  // ----- each step keeps it

  /** The step leaves everything but the pc of `r` alone, and `r` is on its way out. */
  lemma {:induction false} LeavesLoop(hash: string -> string, s0: System, s: System, s': System, r: nat, rows: seq<Row>)
    requires SameProcesses(s0, s) && InTurn(hash, s0, s, r, rows) && |s'.procs| == |s.procs|
    requires Ledger(s') == Ledger(s) && s'.procs[r].pc in {Aborting, Releasing}
    ensures InTurn(hash, s0, s', r, rows)
  {
    hide ValidTurn, RowsThen, LedgerRows;
    var n := TurnSoFar(hash, s0, s, r, rows);
    assert TurnIs(hash, s0, s', rows, Turn(r, n));
  }

  /** The step goes on in the loop, with or without a new row. */
  lemma {:induction false} StaysInLoop(hash: string -> string, s: System, s': System, r: nat, rows: seq<Row>)
    requires r < |s.procs| == |s'.procs| && InLoop(hash, s, s.procs[r], rows) && ProcessOk(hash, s', s'.procs[r])
    requires s'.procs[r].pc in {Ready, Working, Inserted} && Records(hash, s, s', r)
    requires s'.procs[r].dir == s.procs[r].dir && s'.procs[r].ack == s.procs[r].ack
    requires s'.procs[r].todo == s.procs[r].todo
    requires Ledger(s') == Ledger(s) ==> Position(s'.procs[r]) == Position(s.procs[r])
    requires Started(s'.procs[r]) <= Started(s.procs[r])
          || (s'.procs[r].pc == Working && s'.procs[r].k == s.procs[r].k)
    ensures InLoop(hash, s', s'.procs[r], rows)
  {
    hide PendingFiles, MustHold, ToMigration, Drifts, LedgerRows, MigrationChecksum, TodoOpen;
    var p, p' := s.procs[r], s'.procs[r];
    if Ledger(s') != Ledger(s) {
      assert p.todo[..p.k + 1] == p.todo[..p.k] + [p.todo[p.k]];
      NextRowOf(hash, p.todo, p.k, rows);
    }
  }

  lemma {:induction false} NextRowOf(hash: string -> string, todo: seq<File>, k: nat, rows: seq<Row>)
    requires k < |todo|
    ensures rows + FileRows(hash, todo[..k]) + [RowOf(hash, todo[k])] == rows + FileRows(hash, todo[..k + 1])
  {
    hide MigrationChecksum;
    NextFileRow(hash, todo, k);
  }

  /** Where a step leads a process that holds the lock and keeps it. */
  lemma {:induction false} LoopMoves(hash: string -> string, s: System, a: Action)
    requires Inv(hash, s) && a.r < |s.procs| && s.procs[a.r].pc in {Ready, Working, Inserted} && !a.Crash?
    ensures var p, s' := s.procs[a.r], Next(hash, s, a);
            |s'.procs| == |s.procs| &&
            var p' := s'.procs[a.r];
            && s'.lock == s.lock && p'.pc in {Ready, Working, Inserted, Aborting, Releasing} && p'.todo == p.todo
            && (p'.pc in {Ready, Working, Inserted} ==>
                  Started(p') <= Started(p) || (p'.pc == Working && p'.k == p.k))
  {
    hide Body, MustHold, Collides, LedgerRows, TodoOpen, ExecIn, MigrationChecksum, FailQuery, DistinctRows,
         Checksummed, ToMigration, InsertRow, ExecTxn;
  }

  lemma {:induction false} LoopStep(hash: string -> string, s0: System, s: System, a: Action, rows: seq<Row>)
    requires WellFormed(hash, s) && Inv(hash, s) && SameProcesses(s0, s) && a.r < |s.procs| && !a.Crash?
    requires s.procs[a.r].pc in {Ready, Working, Inserted} && InTurn(hash, s0, s, a.r, rows)
    ensures var s' := Next(hash, s, a); s'.lock == s.lock && InTurn(hash, s0, s', a.r, rows)
    ensures |Next(hash, s, a).procs| == |s.procs| && Next(hash, s, a).procs[a.r].pc != Waiting
  {
    hide Next, InLoop, WellFormed, TurnIs, LedgerRows, Started, Position, DistinctRows, Checksummed, ProcessOk;
    var s' := Next(hash, s, a);
    StepKeepsInv(hash, s, a);
    StepKeepsDirs(hash, s, a);
    LoopMoves(hash, s, a);
    if s'.procs[a.r].pc in {Ready, Working, Inserted} {
      if Ledger(s') == Ledger(s) {
        PlaceStays(hash, s, a);
      }
      StaysInLoop(hash, s, s', a.r, rows);
    } else {
      LeavesQuietly(hash, s, a);
      LeavesLoop(hash, s0, s, s', a.r, rows);
    }
  }

  lemma {:induction false} PlaceStays(hash: string -> string, s: System, a: Action)
    requires Inv(hash, s) && a.r < |s.procs| && s.procs[a.r].pc in {Ready, Working, Inserted}
    requires var s' := Next(hash, s, a);
             |s'.procs| == |s.procs| && Ledger(s') == Ledger(s) && s'.procs[a.r].pc in {Ready, Working, Inserted}
    ensures Position(Next(hash, s, a).procs[a.r]) == Position(s.procs[a.r])
  {
    hide Next, Inv, LedgerRows, Position;
    if a.ReadLedger? {
      NotLocked(hash, s, a);
    } else {
      PlaceKept(hash, s, Next(hash, s, a), a);
    }
  }

  lemma {:induction false} NotLocked(hash: string -> string, s: System, a: Action)
    requires a.ReadLedger? && a.r < |s.procs| && s.procs[a.r].pc != Locked
    ensures Next(hash, s, a) == s
  {
  }

  /** A process that leaves its loop records nothing in that step. */
  lemma {:induction false} LeavesQuietly(hash: string -> string, s: System, a: Action)
    requires Inv(hash, s) && a.r < |s.procs| && s.procs[a.r].pc in {Ready, Working, Inserted}
    requires var s' := Next(hash, s, a); |s'.procs| == |s.procs| && s'.procs[a.r].pc in {Aborting, Releasing}
    ensures Ledger(Next(hash, s, a)) == Ledger(s)
  {
    hide Body, MustHold, Collides, TodoOpen, ExecIn, MigrationChecksum, DistinctRows, Checksummed, ToMigration,
         InsertRow, ExecTxn, LedgerRows;
    NotImplicitYet(s.commits, s.procs[a.r].open);
  }

  /** The lock has become free, and the turn is over. */
  lemma {:induction false} TurnEnds(hash: string -> string, s0: System, s: System, s': System, r: nat, plan: seq<Turn>)
    returns (plan': seq<Turn>)
    requires SerialInv(hash, s0, s, plan) && s.lock == Some(r) && s'.lock == None && Ledger(s') == Ledger(s)
    requires SameProcesses(s0, s') && s'.procs[r].pc == Stopped
    requires forall x :: 0 <= x < |s.procs| && x != r ==> s'.procs[x] == s.procs[x]
    ensures SerialInv(hash, s0, s', plan')
  {
    hide ValidTurn, RowsThen, LedgerRows, InTurn, RowsAfter, ValidPlan, TookTurn;
    var rows := RowsAfter(hash, s0, plan);
    assert r < |s.procs| by { TurnHasProcess(hash, s0, s, r, rows); }
    var n := TurnSoFar(hash, s0, s, r, rows);
    plan' := plan + [Turn(r, n)];
    PlanThen(hash, s0, plan, Turn(r, n));
  }

  lemma {:induction false} TurnHasProcess(hash: string -> string, s0: System, s: System, r: nat, rows: seq<Row>)
    requires InTurn(hash, s0, s, r, rows)
    ensures r < |s.procs|
  {
  }

  lemma {:induction false} SameThen(hash: string -> string, s0: System, s: System, a: Action)
    requires SameProcesses(s0, s)
    ensures SameProcesses(s0, Next(hash, s, a))
  {
    hide Next;
    StepKeepsDirs(hash, s, a);
  }

  /** A step by which the lock is neither taken nor given back, and nothing is planned anew. */
  lemma {:induction false} SerialStays(hash: string -> string, s0: System, s: System, s': System, a: Action,
                                       plan: seq<Turn>)
    requires SerialInv(hash, s0, s, plan) && SameProcesses(s0, s') && s'.lock == s.lock
    requires forall x :: 0 <= x < |s.procs| && x != a.r ==> s'.procs[x] == s.procs[x]
    requires a.r < |s.procs| ==> s'.procs[a.r].pc == Waiting ==> s.procs[a.r].pc == Waiting
    requires match s.lock
             case None => Ledger(s') == Ledger(s)
             case Some(r) => InTurn(hash, s0, s', r, RowsAfter(hash, s0, plan))
    ensures SerialInv(hash, s0, s', plan)
  {
    hide InTurn, RowsAfter, ValidPlan, TookTurn, LedgerRows;
    forall x | 0 <= x < |s'.procs| && s'.procs[x].pc == Waiting
      ensures !TookTurn(plan, x)
    {
      assert s.procs[x].pc == Waiting;
    }
  }

  lemma {:induction false} AcquireSerial(hash: string -> string, s0: System, s: System, r: nat, plan: seq<Turn>)
    requires SerialInv(hash, s0, s, plan) && r < |s.procs| && s.procs[r].pc == Waiting && s.lock == None
    ensures SerialInv(hash, s0, Next(hash, s, Acquire(r)), plan)
  {
    hide RowsAfter, ValidPlan, TookTurn, LedgerRows;
  }

  lemma {:induction false} ReadSerial(hash: string -> string, s0: System, s: System, r: nat, plan: seq<Turn>)
    requires SerialInv(hash, s0, s, plan) && r < |s.procs| && s.procs[r].pc == Locked && s.lock == Some(r)
    ensures SerialInv(hash, s0, Next(hash, s, ReadLedger(r)), plan)
  {
    hide RowsAfter, ValidPlan, TookTurn, LedgerRows, Drifts, PendingFiles, FileRows, MustHold, ToMigration;
    var s', rows := Next(hash, s, ReadLedger(r)), RowsAfter(hash, s0, plan);
    NoFileRows(hash, rows);
    assert s'.procs[r].pc == Releasing ==> TurnIs(hash, s0, s', rows, Turn(r, 0));
  }

  lemma {:induction false} UndoSerial(hash: string -> string, s0: System, s: System, r: nat, plan: seq<Turn>)
    requires Inv(hash, s) && SerialInv(hash, s0, s, plan) && r < |s.procs| && s.procs[r].pc == Aborting
    ensures SerialInv(hash, s0, Next(hash, s, Undo(r)), plan)
  {
    hide RowsAfter, ValidPlan, TookTurn, LedgerRows, InTurn, ProcessOk, DistinctRows, Checksummed, ExecTxn;
    var s' := Next(hash, s, Undo(r));
    UndoKeeps(hash, s, r);
    SameThen(hash, s0, s, Undo(r));
    LeavesLoop(hash, s0, s, s', r, RowsAfter(hash, s0, plan));
    SerialStays(hash, s0, s, s', Undo(r), plan);
  }

  lemma {:induction false} ReleaseSerial(hash: string -> string, s0: System, s: System, a: Action, plan: seq<Turn>)
    returns (plan': seq<Turn>)
    requires Inv(hash, s) && SerialInv(hash, s0, s, plan) && a.r < |s.procs|
    requires (a.Release? && s.procs[a.r].pc == Releasing) || (a.Crash? && Critical(s.procs[a.r].pc))
    ensures SerialInv(hash, s0, Next(hash, s, a), plan')
  {
    hide SerialInv, LedgerRows, ProcessOk, DistinctRows, Checksummed;
    SameOf(hash, s0, s, plan);
    SameThen(hash, s0, s, a);
    plan' := TurnEnds(hash, s0, s, Next(hash, s, a), a.r, plan);
  }

  lemma {:induction false} SameOf(hash: string -> string, s0: System, s: System, plan: seq<Turn>)
    requires SerialInv(hash, s0, s, plan)
    ensures SameProcesses(s0, s)
  {
  }

  /** A process that has not begun, or has stopped, may only be crashed. */
  lemma {:induction false} IdleSerial(hash: string -> string, s0: System, s: System, a: Action, plan: seq<Turn>)
    requires Inv(hash, s) && SerialInv(hash, s0, s, plan) && a.r < |s.procs| && !Critical(s.procs[a.r].pc)
    requires !a.Acquire?
    ensures SerialInv(hash, s0, Next(hash, s, a), plan)
  {
    hide RowsAfter, ValidPlan, TookTurn, LedgerRows, InTurn, ProcessOk, DistinctRows, Checksummed;
    var s' := Next(hash, s, a);
    SameThen(hash, s0, s, a);
    if s.lock.Some? {
      TurnHasProcess(hash, s0, s, s.lock.value, RowsAfter(hash, s0, plan));
      assert s.lock.value != a.r;
      InTurnStays(hash, s0, s, s', s.lock.value, RowsAfter(hash, s0, plan));
    }
    SerialStays(hash, s0, s, s', a, plan);
  }

  lemma {:induction false} InTurnStays(hash: string -> string, s0: System, s: System, s': System, r: nat,
                                       rows: seq<Row>)
    requires InTurn(hash, s0, s, r, rows) && |s'.procs| == |s.procs| && s'.procs[r] == s.procs[r]
    requires Ledger(s') == Ledger(s)
    ensures InTurn(hash, s0, s', r, rows)
  {
    hide ValidTurn, RowsThen, LedgerRows, NoDrift, PendingFiles, NoneHeldTo, FileRows;
    if exists n :: TurnIs(hash, s0, s, rows, Turn(r, n)) {
      var n :| TurnIs(hash, s0, s, rows, Turn(r, n));
      assert TurnIs(hash, s0, s', rows, Turn(r, n));
    }
  }

  lemma {:induction false} StaysPut(hash: string -> string, s: System, a: Action)
    requires a.r < |s.procs| && !a.Crash?
    requires match s.procs[a.r].pc
             case Waiting => !a.Acquire? || s.lock != None
             case Locked => !a.ReadLedger?
             case Aborting => !a.Undo?
             case Releasing => !a.Release?
             case Stopped => true
             case _ => false
    ensures Next(hash, s, a) == s
  {
  }

  lemma {:induction false} SerialStep(hash: string -> string, s0: System, s: System, a: Action, plan: seq<Turn>)
    returns (plan': seq<Turn>)
    requires WellFormed(hash, s) && Inv(hash, s) && SerialInv(hash, s0, s, plan)
    ensures SerialInv(hash, s0, Next(hash, s, a), plan')
  {
    hide Next, SerialInv, ProcessOk, LedgerRows, DistinctRows, Checksummed, WellFormed;
    plan' := plan;
    if a.r >= |s.procs| {
      NobodyActs(hash, s, a);
    } else if a.Crash? && Critical(s.procs[a.r].pc) {
      plan' := ReleaseSerial(hash, s0, s, a, plan);
    } else {
      match s.procs[a.r].pc
      case Waiting =>
        if a.Acquire? && s.lock == None {
          AcquireSerial(hash, s0, s, a.r, plan);
        } else if a.Crash? {
          IdleSerial(hash, s0, s, a, plan);
        } else {
          StaysPut(hash, s, a);
        }
      case Locked =>
        if a.ReadLedger? {
          ReadSerial(hash, s0, s, a.r, plan);
        } else {
          StaysPut(hash, s, a);
        }
      case Aborting =>
        if a.Undo? {
          UndoSerial(hash, s0, s, a.r, plan);
        } else {
          StaysPut(hash, s, a);
        }
      case Releasing =>
        if a.Release? {
          plan' := ReleaseSerial(hash, s0, s, a, plan);
        } else {
          StaysPut(hash, s, a);
        }
      case Stopped =>
        StoppedStays(hash, s, a);
      case _ =>
        LoopSerial(hash, s0, s, a, plan);
    }
  }

  lemma {:induction false} StoppedStays(hash: string -> string, s: System, a: Action)
    requires a.r < |s.procs| && s.procs[a.r].pc == Stopped
    ensures Next(hash, s, a) == s
  {
  }

  lemma {:induction false} LoopSerial(hash: string -> string, s0: System, s: System, a: Action, plan: seq<Turn>)
    requires WellFormed(hash, s) && Inv(hash, s) && SerialInv(hash, s0, s, plan) && a.r < |s.procs| && !a.Crash?
    requires s.procs[a.r].pc in {Ready, Working, Inserted}
    ensures SerialInv(hash, s0, Next(hash, s, a), plan)
  {
    hide Next, RowsAfter, ValidPlan, TookTurn, LedgerRows, InTurn, ProcessOk, DistinctRows, Checksummed, WellFormed;
    SameThen(hash, s0, s, a);
    LoopStep(hash, s0, s, a, RowsAfter(hash, s0, plan));
    forall x | 0 <= x < |s.procs| && x != a.r
      ensures Next(hash, s, a).procs[x] == s.procs[x]
    {
      OthersStand(hash, s, a, x);
    }
    SerialStays(hash, s0, s, Next(hash, s, a), a, plan);
  }

  /**
   * Every run is serial. In every state that any interleaving, failure and crash can reach
   * there are turns, no two of one process, such that the ledger, whenever the lock is free,
   * is the one they leave, and otherwise the one they and the turn in progress leave.
   */
  lemma {:induction false} EveryRunIsSerial(hash: string -> string, s0: System, actions: seq<Action>)
    returns (plan: seq<Turn>)
    requires WellFormed(hash, s0) && Initial(s0)
    ensures var s := Reach(hash, s0, actions);
            && ValidPlan(hash, s0, plan) && SerialInv(hash, s0, s, plan)
            && (s.lock == None ==> Ledger(s) == RowsAfter(hash, s0, plan))
            && (s.lock.Some? ==>
                  exists n :: ValidPlan(hash, s0, plan + [Turn(s.lock.value, n)]) &&
                              Ledger(s) == RowsAfter(hash, s0, plan + [Turn(s.lock.value, n)]))
    decreases |actions|
  {
    hide Next, Inv, WellFormed, SerialInv, Initial, Records, LedgerRows, ValidPlan, RowsAfter;
    InitialInv(hash, s0);
    if actions == [] {
      plan := [];
      SerialAtFirst(hash, s0);
    } else {
      var n := |actions| - 1;
      var before := EveryRunIsSerial(hash, s0, actions[..n]);
      StepsKeepInv(hash, s0, actions[..n]);
      plan := SerialStep(hash, s0, Reach(hash, s0, actions[..n]), actions[n], before);
    }
    SerialMeans(hash, s0, Reach(hash, s0, actions), plan);
  }

  lemma {:induction false} SerialAtFirst(hash: string -> string, s0: System)
    requires Initial(s0)
    ensures SerialInv(hash, s0, s0, [])
  {
    hide LedgerRows;
  }

  lemma {:induction false} SerialMeans(hash: string -> string, s0: System, s: System, plan: seq<Turn>)
    requires SerialInv(hash, s0, s, plan)
    ensures ValidPlan(hash, s0, plan)
    ensures s.lock == None ==> Ledger(s) == RowsAfter(hash, s0, plan)
    ensures s.lock.Some? ==>
              exists n :: ValidPlan(hash, s0, plan + [Turn(s.lock.value, n)]) &&
                          Ledger(s) == RowsAfter(hash, s0, plan + [Turn(s.lock.value, n)])
  {
    hide LedgerRows, ValidPlan, RowsAfter, InTurn, ValidTurn, RowsThen, TookTurn;
    if s.lock.Some? {
      var n := TurnSoFar(hash, s0, s, s.lock.value, RowsAfter(hash, s0, plan));
      PlanThen(hash, s0, plan, Turn(s.lock.value, n));
    }
  }
}
