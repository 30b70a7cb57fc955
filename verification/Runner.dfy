/** One run of the migration runner, from the ledger to the last commit. */
module Runner {
  import opened Text
  import opened Scanner
  import opened Stripper
  import opened SqlStatements
  import opened Checksum
  import opened Database

  datatype File = File(name: string, raw: string)
  datatype Migration = Migration(name: string, sql: string, checksum: string)

  // ----- authorisation

  /** `destructiveAuthorised`: the acknowledgement is a comma-separated list of names. */
  predicate Authorised(name: string, ack: string) {
    exists k :: 0 <= k < |Split(ack, ',')| && Trim(Split(ack, ',')[k]) == name && name != []
  }

  // ----- the plan

  /** The checksum recorded for `name`, or the empty string, which the runner treats as no record. */
  function Recorded(rows: seq<Row>, name: string): (checksum: string) {
    if rows == [] then ""
    else if rows[|rows| - 1].name == name then rows[|rows| - 1].checksum
    else Recorded(rows[..|rows| - 1], name)
  }

  datatype Plan = Drift(name: string) | Pending(list: seq<Migration>)

  function ToMigration(hash: string -> string, f: File): (m: Migration) {
    Migration(f.name, Strip(f.raw), MigrationChecksum(hash, f.raw))
  }

  predicate Drifts(hash: string -> string, rows: seq<Row>, f: File) {
    var r := Recorded(rows, f.name);
    r != "" && r != MigrationChecksum(hash, f.raw)
  }

  predicate IsFirstDrift(hash: string -> string, dir: seq<File>, rows: seq<Row>, k: nat) {
    k < |dir| && Drifts(hash, rows, dir[k]) && forall j :: 0 <= j < k ==> !Drifts(hash, rows, dir[j])
  }

  /** The files without a recorded checksum, in order. */
  function PendingFiles(dir: seq<File>, rows: seq<Row>): (fs: seq<File>) {
    if dir == [] then []
    else PendingFiles(dir[..|dir| - 1], rows) +
         (if Recorded(rows, dir[|dir| - 1].name) == "" then [dir[|dir| - 1]] else [])
  }

  function ToMigrations(hash: string -> string, fs: seq<File>): (ms: seq<Migration>)
    ensures |ms| == |fs|
  {
    seq(|fs|, k requires 0 <= k < |fs| => ToMigration(hash, fs[k]))
  }

  /** Reads the files in order; the first whose recorded checksum disagrees stops everything. */
  method ReadPlan(hash: string -> string, dir: seq<File>, rows: seq<Row>) returns (plan: Plan)
    ensures plan.Pending? <==> forall k :: 0 <= k < |dir| ==> !Drifts(hash, rows, dir[k])
    ensures plan.Pending? ==> plan.list == ToMigrations(hash, PendingFiles(dir, rows))
    ensures plan.Drift? ==> exists k: nat :: IsFirstDrift(hash, dir, rows, k) && dir[k].name == plan.name
  {
    var pending: seq<Migration> := [];
    var k := 0;
    while k < |dir|
      invariant 0 <= k <= |dir|
      invariant forall j :: 0 <= j < k ==> !Drifts(hash, rows, dir[j])
      invariant pending == ToMigrations(hash, PendingFiles(dir[..k], rows))
    {
      var checksum := MigrationChecksum(hash, dir[k].raw);
      var recorded := Recorded(rows, dir[k].name);
      if recorded != "" && recorded != checksum {
        assert IsFirstDrift(hash, dir, rows, k);
        return Drift(dir[k].name);
      }
      assert dir[..k + 1][..k] == dir[..k];
      if recorded == "" {
        pending := pending + [Migration(dir[k].name, Strip(dir[k].raw), checksum)];
      }
      k := k + 1;
    }
    assert dir[..k] == dir;
    plan := Pending(pending);
  }

  // ----- one migration

  /** Where, if anywhere, the database refuses: at a statement of the body, at the ledger insert, or at the commit. */
  datatype Fault = NoFault | InBody(at: nat) | InInsert | InCommit

  datatype Step = Step(session: Session, ok: bool)

  /** The body from statement `j` on, up to the first failure. */
  function ExecBody(s: Session, body: seq<Act>, j: nat, fault: Fault): (r: Step)
    requires j <= |body|
    decreases |body| - j
  {
    if j == |body| then Step(s, true)
    else if fault == InBody(j) then Step(FailQuery(s), false)
    else ExecBody(ExecIn(s, body, j), body, j + 1, fault)
  }

  /** A `COMMIT` can be refused only where there is something to commit. */
  predicate RefusesCommit(s: Session, fault: Fault) {
    fault == InCommit && !s.open.NoTxn?
  }

  /** `BEGIN`, the body, the ledger insert, `COMMIT`; a failure anywhere is answered with `ROLLBACK`. */
  function ApplyOne(means: Reading, base: seq<Row>, s: Session, m: Migration, fault: Fault): (r: Step) {
    var body := ExecBody(ExecTxn(s, Begin), Asks(means, m.sql), 0, fault);
    if !body.ok || fault == InInsert || Collides(base, body.session, m.name) then
      Step(ExecTxn(body.session, Rollback), false)
    else
      var inserted := InsertRow(body.session, Row(m.name, m.checksum));
      if RefusesCommit(inserted, fault) then Step(ExecTxn(inserted, Rollback), false)
      else Step(ExecTxn(inserted, Commit), true)
  }

  // ----- the run

  datatype Report =
    | Finished(applied: seq<string>, held: seq<string>)
    | Failed(applied: seq<string>, name: string)

  function Names(ms: seq<Migration>): (ns: seq<string>)
    ensures |ns| == |ms|
  {
    seq(|ms|, k requires 0 <= k < |ms| => ms[k].name)
  }

  predicate MustHold(m: Migration, ack: string) {
    DeclaresDestructive(m.sql) && !Authorised(m.name, ack)
  }

  datatype Run = Run(session: Session, report: Report)

  /** Applies `pending` from index `k` on: stops at the first held migration, or at the first that fails. */
  function ApplyFrom(means: Reading, base: seq<Row>, s: Session, pending: seq<Migration>, ack: string,
                     faults: string -> Fault, k: nat): (r: Run)
    requires k <= |pending|
    decreases |pending| - k
  {
    if k == |pending| then Run(s, Finished(Names(pending), []))
    else if MustHold(pending[k], ack) then Run(s, Finished(Names(pending[..k]), Names(pending[k..])))
    else
      var one := ApplyOne(means, base, s, pending[k], faults(pending[k].name));
      if one.ok then ApplyFrom(means, base, one.session, pending, ack, faults, k + 1)
      else Run(one.session, Failed(Names(pending[..k]), pending[k].name))
  }

  /** A database connection; its methods are the queries that the runner sends. */
  class Connection {
    const means: Reading
    const base: seq<Row>
    var commits: seq<Transaction>
    var open: Open
    var tableExists: bool
    var locked: bool

    ghost function State(): (s: Session)
      reads this
    {
      Session(commits, open)
    }

    /** Ledger rows live in the ledger table. */
    ghost predicate Valid()
      reads this
    {
      !tableExists ==> LedgerRows(base, commits) == []
    }

    constructor (means: Reading, base: seq<Row>, commits: seq<Transaction>, tableExists: bool)
      ensures this.means == means && this.base == base && this.commits == commits && this.tableExists == tableExists
      ensures open == NoTxn && !locked
    {
      this.means, this.base, this.commits, this.tableExists := means, base, commits, tableExists;
      open, locked := NoTxn, false;
    }

    method Lock()
      modifies this`locked
      ensures locked
    {
      locked := true;
    }

    method Unlock()
      modifies this`locked
      ensures !locked
    {
      locked := false;
    }

    method CreateLedgerIfMissing()
      modifies this`tableExists
      ensures tableExists
    {
      tableExists := true;
    }

    method ReadLedger() returns (rows: seq<Row>)
      ensures rows == if tableExists then LedgerRows(base, commits) else []
    {
      rows := if tableExists then LedgerRows(base, commits) else [];
    }

    method Send(k: Keyword)
      modifies this`commits, this`open
      ensures State() == ExecTxn(old(State()), k)
    {
      match open
      case NoTxn =>
        if Opens(k) { open := InBlock(NOTHING); }
      case InBlock(t) =>
        if !Opens(k) { Close(k, t); }
      case Implicit(t) =>
        if Opens(k) { open := InBlock(t); } else { Close(k, t); }
    }

    /** Ends the open transaction `t`. */
    method Close(k: Keyword, t: Transaction)
      requires !Opens(k)
      modifies this`commits, this`open
      ensures open == NoTxn && commits == if k == Rollback then old(commits) else Committed(old(commits), t)
    {
      if k != Rollback {
        commits := Committed(commits, t);
      }
      open := NoTxn;
    }

    /** Sends the whole text; the database carries it out statement by statement and stops at the first error. */
    method Query(sql: string, fault: Fault) returns (ok: bool)
      modifies this`commits, this`open
      ensures Step(State(), ok) == ExecBody(old(State()), Asks(means, sql), 0, fault)
    {
      var body := Asks(means, sql);
      var j := 0;
      while j < |body|
        invariant 0 <= j <= |body|
        invariant ExecBody(State(), body, j, fault) == ExecBody(old(State()), body, 0, fault)
      {
        if fault == InBody(j) {
          if open.Implicit? { open := NoTxn; }
          return false;
        }
        match body[j] {
          case Controls(k) =>
            Send(k);
          case Does(text) =>
            open := match open
              case NoTxn => Implicit(AddText(NOTHING, text))
              case InBlock(t) => InBlock(AddText(t, text))
              case Implicit(t) => Implicit(AddText(t, text));
        }
        if j + 1 == |body| && open.Implicit? {
          commits, open := Committed(commits, open.txn), NoTxn;
        }
        j := j + 1;
      }
      ok := true;
    }

    method Insert(row: Row, fault: Fault) returns (ok: bool)
      modifies this`commits, this`open
      ensures ok <==> fault != InInsert && !old(Collides(base, State(), row.name))
      ensures State() == if ok then InsertRow(old(State()), row) else old(State())
    {
      if fault == InInsert || Collides(base, Session(commits, open), row.name) {
        return false;
      }
      match open {
        case NoTxn => commits := commits + [Transaction([], [row])];
        case InBlock(t) => open := InBlock(t.(rows := t.rows + [row]));
        case Implicit(t) => commits, open := commits + [t.(rows := t.rows + [row])], NoTxn;
      }
      ok := true;
    }

    method Apply(m: Migration, fault: Fault) returns (ok: bool)
      modifies this`commits, this`open
      ensures Step(State(), ok) == ApplyOne(means, base, old(State()), m, fault)
    {
      Send(Begin);
      ok := Query(m.sql, fault);
      if ok {
        ok := Insert(Row(m.name, m.checksum), fault);
      }
      if ok && !RefusesCommit(Session(commits, open), fault) {
        Send(Commit);
      } else {
        Send(Rollback);
        ok := false;
      }
    }

    /** The loop over the pending migrations. */
    method ApplyPending(pending: seq<Migration>, ack: string, faults: string -> Fault) returns (report: Report)
      modifies this`commits, this`open
      ensures Run(State(), report) == ApplyFrom(means, base, old(State()), pending, ack, faults, 0)
    {
      var held: seq<string> := [];
      var k := 0;
      while k < |pending|
        invariant 0 <= k <= |pending|
        invariant ApplyFrom(means, base, State(), pending, ack, faults, k)
               == ApplyFrom(means, base, old(State()), pending, ack, faults, 0)
      {
        if MustHold(pending[k], ack) {
          held := Names(pending[k..]);
          return Finished(Names(pending[..k]), held);
        }
        var ok := Apply(pending[k], faults(pending[k].name));
        if !ok {
          return Failed(Names(pending[..k]), pending[k].name);
        }
        k := k + 1;
      }
      report := Finished(Names(pending), held);
    }

    /** `main` in apply mode. The lock is released on every way out. */
    method Migrate(hash: string -> string, dir: seq<File>, ack: string, faults: string -> Fault)
      returns (plan: Plan, report: Report)
      requires open == NoTxn && !locked && Valid()
      modifies this
      ensures !locked && tableExists
      ensures var rows := LedgerRows(base, old(commits));
              && (plan.Pending? <==> forall k :: 0 <= k < |dir| ==> !Drifts(hash, rows, dir[k]))
              && (plan.Pending? ==> plan.list == ToMigrations(hash, PendingFiles(dir, rows)))
              && (plan.Drift? ==> exists k: nat :: IsFirstDrift(hash, dir, rows, k) && dir[k].name == plan.name)
      ensures plan.Drift? ==> State() == old(State())
      ensures plan.Pending? ==> Run(State(), report) == ApplyFrom(means, base, old(State()), plan.list, ack, faults, 0)
    {
      Lock();
      CreateLedgerIfMissing();
      var rows := ReadLedger();
      plan := ReadPlan(hash, dir, rows);
      match plan {
        case Drift(name) =>
          report := Failed([], name);
        case Pending(list) =>
          report := ApplyPending(list, ack, faults);
      }
      Unlock();
    }
  }
}
