/** What one run leaves behind, for every pending list, every acknowledgement and every failure. */
module RunLaws {
  import opened Text
  import opened Scanner
  import opened Stripper
  import opened SqlStatements
  import opened Checksum
  import opened Database
  import opened Harmless
  import opened Runner

  /** The one transaction that records a migration as applied: all of its work, and its ledger row. */
  function Unit(means: Reading, m: Migration): (t: Transaction) {
    Transaction(WorkTexts(Asks(means, m.sql)), [Row(m.name, m.checksum)])
  }

  function Units(means: Reading, ms: seq<Migration>): (ts: seq<Transaction>)
    ensures |ts| == |ms|
  {
    seq(|ms|, k requires 0 <= k < |ms| => Unit(means, ms[k]))
  }

  function RowsFor(ms: seq<Migration>): (rows: seq<Row>)
    ensures |rows| == |ms|
  {
    seq(|ms|, k requires 0 <= k < |ms| => Row(ms[k].name, ms[k].checksum))
  }

  /** Every migration that a run can come to is harmless: those before the first that must be held. */
  ghost predicate RunHarmless(means: Reading, ms: seq<Migration>, ack: string) {
    forall k :: 0 <= k < |ms| && NoneHeld(ms[..k + 1], ack) ==> IsHarmless(Asks(means, ms[k].sql))
  }

  ghost predicate NoneHeld(ms: seq<Migration>, ack: string) {
    forall j :: 0 <= j < |ms| ==> !MustHold(ms[j], ack)
  }

  /** Whether the fault strikes; a commit can be refused only where a block is open at the end of the body. */
  predicate Strikes(fault: Fault, acts: seq<Act>) {
    match fault
    case NoFault => false
    case InBody(at) => at < |acts|
    case InInsert => true
    case InCommit => !OpenAt(acts, |acts|).NoTxn?
  }

  // ----- what any body does to the ledger

  /** No ledger row has been written since the commits were `c`. */
  ghost predicate NoRowsSince(c: seq<Transaction>, s: Session) {
    && c <= s.commits
    && (forall x :: |c| <= x < |s.commits| ==> s.commits[x].rows == [])
    && (s.open.NoTxn? || s.open.txn.rows == [])
  }

  lemma {:induction false} ActAddsNoRow(c: seq<Transaction>, s: Session, a: Act)
    requires NoRowsSince(c, s)
    ensures NoRowsSince(c, ExecAct(s, a)) && NoRowsSince(c, EndQuery(s)) && NoRowsSince(c, FailQuery(s))
    ensures |s.commits| <= |ExecAct(s, a).commits| && |s.commits| <= |EndQuery(s).commits|
  {
  }

  lemma {:induction false} BodyAddsNoRow(c: seq<Transaction>, s: Session, acts: seq<Act>, j: nat, fault: Fault)
    requires NoRowsSince(c, s) && j <= |acts|
    ensures NoRowsSince(c, ExecBody(s, acts, j, fault).session)
    ensures fault == NoFault ==> ExecBody(s, acts, j, fault).ok
    decreases |acts| - j
  {
    hide NoRowsSince, ExecAct, EndQuery, FailQuery;
    if j < |acts| {
      ActAddsNoRow(c, s, acts[j]);
      ActAddsNoRow(c, ExecAct(s, acts[j]), acts[j]);
      if fault != InBody(j) {
        BodyAddsNoRow(c, ExecIn(s, acts, j), acts, j + 1, fault);
      }
    }
  }

  lemma {:induction false} NoNewRows(base: seq<Row>, c: seq<Transaction>, s: Session, n: nat)
    requires NoRowsSince(c, s) && |c| <= n <= |s.commits|
    ensures LedgerRows(base, s.commits[..n]) == LedgerRows(base, c)
    decreases n
  {
    if n == |c| {
      assert s.commits[..n] == c;
    } else {
      NoNewRows(base, c, s, n - 1);
      assert s.commits[..n] == s.commits[..n - 1] + [s.commits[n - 1]];
      RowsOfAppend(s.commits[..n - 1], s.commits[n - 1]);
    }
  }

  lemma {:induction false} SameLedger(base: seq<Row>, c: seq<Transaction>, s: Session)
    requires NoRowsSince(c, s)
    ensures LedgerRows(base, s.commits) == LedgerRows(base, c) && c <= s.commits
  {
    NoNewRows(base, c, s, |s.commits|);
    assert s.commits[..|s.commits|] == s.commits;
  }

  /** The insert writes its row, at once or with the block, and a rollback takes back what has not been committed. */
  lemma {:induction false} EndsRecord(base: seq<Row>, c: seq<Transaction>, q: Session, row: Row)
    requires NoRowsSince(c, q)
    ensures var inserted := InsertRow(q, row);
            && ExecTxn(inserted, Commit).open.NoTxn? && c <= ExecTxn(inserted, Commit).commits
            && LedgerRows(base, ExecTxn(inserted, Commit).commits) == LedgerRows(base, c) + [row]
            && (!inserted.open.NoTxn? ==> ExecTxn(inserted, Rollback).commits == q.commits)
            && ExecTxn(inserted, Rollback).open.NoTxn?
    ensures ExecTxn(q, Rollback) == Session(q.commits, NoTxn)
  {
    SameLedger(base, c, q);
    var last := Transaction(if q.open.NoTxn? then [] else q.open.txn.stmts, [row]);
    assert !q.open.NoTxn? ==> q.open.txn.rows + [row] == [row];
    assert ExecTxn(InsertRow(q, row), Commit).commits == q.commits + [last];
    RowsOfAppend(q.commits, last);
  }

  /**
   * Whatever its body does to the transaction, and whatever fails, a migration adds its row
   * to the ledger and nothing else, if it is reported as applied, and otherwise nothing.
   */
  lemma {:induction false} ApplyOneRecords(means: Reading, base: seq<Row>, s: Session, m: Migration, fault: Fault)
    requires s.open.NoTxn?
    ensures var r := ApplyOne(means, base, s, m, fault);
            && r.session.open.NoTxn? && s.commits <= r.session.commits
            && LedgerRows(base, r.session.commits)
               == LedgerRows(base, s.commits) + (if r.ok then [Row(m.name, m.checksum)] else [])
            && (r.ok ==> !HasRow(LedgerRows(base, s.commits), m.name))
            && (!r.ok ==> fault != NoFault || HasRow(LedgerRows(base, s.commits), m.name))
  {
    hide Asks, ExecBody, ExecTxn, InsertRow, LedgerRows, NoRowsSince;
    var acts, row := Asks(means, m.sql), Row(m.name, m.checksum);
    BeginAddsNoRow(s);
    BodyAddsNoRow(s.commits, ExecTxn(s, Begin), acts, 0, fault);
    var q := ExecBody(ExecTxn(s, Begin), acts, 0, fault).session;
    SameLedger(base, s.commits, q);
    OpenHasNoRow(s.commits, q, m.name);
    EndsRecord(base, s.commits, q, row);
    assert LedgerRows(base, s.commits) + [] == LedgerRows(base, s.commits);
  }

  lemma {:induction false} BeginAddsNoRow(s: Session)
    requires s.open.NoTxn?
    ensures NoRowsSince(s.commits, ExecTxn(s, Begin))
  {
  }

  lemma {:induction false} OpenHasNoRow(c: seq<Transaction>, q: Session, name: string)
    requires NoRowsSince(c, q)
    ensures !q.open.NoTxn? ==> !HasRow(q.open.txn.rows, name)
  {
  }

  // ----- one migration

  lemma {:induction false} ExecHarmless(c: seq<Transaction>, acts: seq<Act>, j: nat, fault: Fault)
    requires j <= |acts| && IsHarmless(acts)
    ensures var r := ExecBody(Session(c, OpenAt(acts, j)), acts, j, fault);
            && r.session.commits == c
            && (r.ok <==> !(fault.InBody? && j <= fault.at < |acts|))
            && (r.ok ==> r.session == Session(c, OpenAt(acts, |acts|)))
            && (r.session.open.NoTxn? || r.session.open.txn.rows == [])
    decreases |acts| - j
  {
    hide IsHarmless, ExecIn, PhaseOf, WorkTexts;
    if j < |acts| && fault != InBody(j) {
      HarmlessStep(c, acts, j);
      ExecHarmless(c, acts, j + 1, fault);
    }
  }

  /**
   * A migration whose body is harmless is applied whole and recorded, or leaves
   * nothing at all, wherever the database refuses.
   */
  lemma {:induction false} ApplyOneIsAtomic(means: Reading, base: seq<Row>, s: Session, m: Migration, fault: Fault)
    requires s.open.NoTxn? && IsHarmless(Asks(means, m.sql))
    ensures var r := ApplyOne(means, base, s, m, fault);
            && r.session.open.NoTxn?
            && (r.ok <==> !Strikes(fault, Asks(means, m.sql)) && !HasRow(LedgerRows(base, s.commits), m.name))
            && r.session.commits == if r.ok then s.commits + [Unit(means, m)] else s.commits
  {
    hide Asks, IsHarmless, OpenAt;
    var acts := Asks(means, m.sql);
    HarmlessEnd(acts);
    ExecHarmless(s.commits, acts, 0, fault);
    var row := Row(m.name, m.checksum);
    assert [] + [row] == [row];
    NoRowInNothing(m.name);
  }

  lemma {:induction false} NoRowInNothing(name: string)
    ensures !HasRow([], name)
  {
  }

  // ----- the run

  /** How far a run got: everything before `n` is applied, and `n` is where it stopped. */
  ghost predicate StoppedAt(report: Report, pending: seq<Migration>, ack: string, n: nat) {
    && n <= |pending|
    && report.applied == Names(pending[..n])
    && (forall j :: 0 <= j < n ==> !MustHold(pending[j], ack))
    && match report
       case Finished(applied, held) =>
         held == Names(pending[n..]) && (n < |pending| ==> MustHold(pending[n], ack))
       case Failed(applied, name) =>
         n < |pending| && name == pending[n].name && !MustHold(pending[n], ack)
  }

  lemma {:induction false} UnitsExtend(means: Reading, ms: seq<Migration>, k: nat, n: nat)
    requires k < n <= |ms|
    ensures [Unit(means, ms[k])] + Units(means, ms[k + 1..n]) == Units(means, ms[k..n])
  {
    hide Unit;
    assert ms[k..n] == [ms[k]] + ms[k + 1..n];
  }

  /**
   * Whatever the bodies do, a run records exactly the migrations before the point where it
   * stops, and stops at the first that must be held, is refused, or is recorded already.
   */
  lemma {:induction false} RunRecordsPrefix(means: Reading, base: seq<Row>, s: Session, pending: seq<Migration>,
                                            ack: string, faults: string -> Fault, k: nat) returns (n: nat)
    requires k <= |pending| && s.open.NoTxn? && NoneHeld(pending[..k], ack)
    ensures k <= n
    ensures var r := ApplyFrom(means, base, s, pending, ack, faults, k);
            && StoppedAt(r.report, pending, ack, n)
            && r.session.open.NoTxn? && s.commits <= r.session.commits
            && LedgerRows(base, r.session.commits) == LedgerRows(base, s.commits) + RowsFor(pending[k..n])
            && (r.report.Failed? ==>
                  || faults(pending[n].name) != NoFault
                  || HasRow(LedgerRows(base, r.session.commits), pending[n].name))
    decreases |pending| - k
  {
    hide Statements, MustHold, ApplyOne, HasRow, LedgerRows;
    if k == |pending| || MustHold(pending[k], ack) {
      n := k;
      assert pending[..k] == pending || k < |pending|;
      assert RowsFor(pending[k..n]) == [];
    } else {
      var fault, row := faults(pending[k].name), Row(pending[k].name, pending[k].checksum);
      ApplyOneRecords(means, base, s, pending[k], fault);
      var one := ApplyOne(means, base, s, pending[k], fault);
      if one.ok {
        assert pending[..k + 1] == pending[..k] + [pending[k]];
        n := RunRecordsPrefix(means, base, one.session, pending, ack, faults, k + 1);
        RowsExtend(pending, k, n);
        var rows := LedgerRows(base, s.commits);
        assert rows + [row] + RowsFor(pending[k + 1..n]) == rows + ([row] + RowsFor(pending[k + 1..n]));
      } else {
        n := k;
        assert RowsFor(pending[k..n]) == [];
        assert LedgerRows(base, s.commits) + [] == LedgerRows(base, s.commits);
      }
    }
  }

  lemma {:induction false} RowsExtend(ms: seq<Migration>, k: nat, n: nat)
    requires k < n <= |ms|
    ensures [Row(ms[k].name, ms[k].checksum)] + RowsFor(ms[k + 1..n]) == RowsFor(ms[k..n])
  {
    assert ms[k..n] == [ms[k]] + ms[k + 1..n];
  }

  lemma {:induction false} StopsAt(means: Reading, base: seq<Row>, s: Session, pending: seq<Migration>,
                                   ack: string, faults: string -> Fault, k: nat, n: nat)
    requires k <= |pending| && s.open.NoTxn? && NoneHeld(pending[..k], ack)
    requires StoppedAt(ApplyFrom(means, base, s, pending, ack, faults, k).report, pending, ack, n)
    ensures k <= n <= |pending|
  {
    hide ApplyFrom, MustHold;
    var m := RunRecordsPrefix(means, base, s, pending, ack, faults, k);
    assert |Names(pending[..m])| == |Names(pending[..n])|;
  }

  /** If no harmful body is reached, the run commits exactly the units of those migrations. */
  lemma {:induction false} RunAppliesPrefix(means: Reading, base: seq<Row>, s: Session, pending: seq<Migration>,
                                            ack: string, faults: string -> Fault, k: nat, n: nat)
    requires k <= |pending| && s.open.NoTxn? && NoneHeld(pending[..k], ack) && RunHarmless(means, pending, ack)
    requires StoppedAt(ApplyFrom(means, base, s, pending, ack, faults, k).report, pending, ack, n)
    ensures k <= n <= |pending|
    ensures var r := ApplyFrom(means, base, s, pending, ack, faults, k);
            && r.session == Session(s.commits + Units(means, pending[k..n]), NoTxn)
            && (r.report.Failed? ==>
                  || Strikes(faults(pending[n].name), Asks(means, pending[n].sql))
                  || HasRow(LedgerRows(base, r.session.commits), pending[n].name))
    decreases |pending| - k
  {
    hide Statements, MustHold, ApplyOne, Unit, Strikes, HasRow, LedgerRows, IsHarmless, StoppedAt;
    StopsAt(means, base, s, pending, ack, faults, k, n);
    if k == |pending| || MustHold(pending[k], ack) {
      StopsHere(ApplyFrom(means, base, s, pending, ack, faults, k).report, pending, ack, k, n);
    } else {
      assert pending[..k + 1] == pending[..k] + [pending[k]];
      ApplyOneIsAtomic(means, base, s, pending[k], faults(pending[k].name));
      var one := ApplyOne(means, base, s, pending[k], faults(pending[k].name));
      if one.ok {
        RunAppliesPrefix(means, base, one.session, pending, ack, faults, k + 1, n);
        UnitsExtend(means, pending, k, n);
        assert s.commits + [Unit(means, pending[k])] + Units(means, pending[k + 1..n])
            == s.commits + ([Unit(means, pending[k])] + Units(means, pending[k + 1..n]));
      } else {
        StopsHere(ApplyFrom(means, base, s, pending, ack, faults, k).report, pending, ack, k, n);
      }
    }
    assert s.commits + [] == s.commits;
  }

  lemma {:induction false} StopsHere(report: Report, pending: seq<Migration>, ack: string, k: nat, n: nat)
    requires StoppedAt(report, pending, ack, n) && k <= |pending| && report.applied == Names(pending[..k])
    ensures n == k && pending[k..n] == []
  {
    hide MustHold;
    assert |Names(pending[..n])| == |Names(pending[..k])|;
  }

  // ----- what the ledger says afterwards

  ghost predicate DistinctNames(dir: seq<File>) {
    forall i, j :: 0 <= i < j < |dir| ==> dir[i].name != dir[j].name
  }

  ghost predicate NeverEmpty(hash: string -> string) {
    forall x :: hash(x) != ""
  }

  function NamesOfFiles(fs: seq<File>): (ns: seq<string>)
    ensures |ns| == |fs|
  {
    seq(|fs|, k requires 0 <= k < |fs| => fs[k].name)
  }

  lemma {:induction false} RecordedAppend(rows: seq<Row>, more: seq<Row>, name: string)
    ensures Recorded(rows + more, name) == if HasRow(more, name) then Recorded(more, name) else Recorded(rows, name)
    decreases |more|
  {
    if more == [] {
      assert rows + more == rows;
    } else {
      var n := |more| - 1;
      assert (rows + more)[..|rows| + n] == rows + more[..n];
      assert more[..n] + [more[n]] == more;
      HasRowAppend(more[..n], [more[n]], name);
      if more[n].name == name {
        assert HasRow(more, name);
      } else {
        RecordedAppend(rows, more[..n], name);
      }
    }
  }

  lemma {:induction false} RecordedIsARow(rows: seq<Row>, name: string)
    requires HasRow(rows, name)
    ensures Row(name, Recorded(rows, name)) in rows
    decreases |rows|
  {
    var n := |rows| - 1;
    if rows[n].name != name {
      assert rows == rows[..n] + [rows[n]];
      HasRowAppend(rows[..n], [rows[n]], name);
      RecordedIsARow(rows[..n], name);
    }
  }

  /** The ledger rows that applying `fs` writes. */
  function FileRows(hash: string -> string, fs: seq<File>): (rows: seq<Row>)
    ensures |rows| == |fs|
  {
    seq(|fs|, k requires 0 <= k < |fs| => Row(fs[k].name, MigrationChecksum(hash, fs[k].raw)))
  }

  lemma {:induction false} FileRowsAreRows(hash: string -> string, fs: seq<File>, n: nat)
    requires n <= |fs|
    ensures RowsFor(ToMigrations(hash, fs)[..n]) == FileRows(hash, fs[..n])
  {
    hide Strip, MigrationChecksum;
  }

  /** The rows of applied files record, for each of them, its own checksum, and nothing for any other name. */
  lemma {:induction false} FileRowsRecord(hash: string -> string, fs: seq<File>, f: File)
    requires NeverEmpty(hash) && DistinctNames(fs)
    ensures HasRow(FileRows(hash, fs), f.name) <==> f.name in NamesOfFiles(fs)
    ensures f in fs ==>
              f.name in NamesOfFiles(fs) && Recorded(FileRows(hash, fs), f.name) == MigrationChecksum(hash, f.raw)
    ensures f.name in NamesOfFiles(fs) ==> Recorded(FileRows(hash, fs), f.name) != ""
  {
    hide MigrationChecksum, Recorded;
    var rows := FileRows(hash, fs);
    if f in fs {
      var x :| 0 <= x < |fs| && fs[x] == f;
      assert NamesOfFiles(fs)[x] == f.name;
    }
    if f.name in NamesOfFiles(fs) {
      var k :| 0 <= k < |fs| && NamesOfFiles(fs)[k] == f.name;
      assert rows[k].name == f.name;
      RecordedIsARow(rows, f.name);
      var j :| 0 <= j < |rows| && rows[j] == Row(f.name, Recorded(rows, f.name));
      assert fs[j].name == fs[k].name;
      ChecksumNonEmpty(hash, fs[j].raw);
    }
    if HasRow(rows, f.name) {
      var k :| 0 <= k < |rows| && rows[k].name == f.name;
      assert NamesOfFiles(fs)[k] == f.name;
    }
  }

  lemma {:induction false} ChecksumNonEmpty(hash: string -> string, raw: string)
    requires NeverEmpty(hash)
    ensures MigrationChecksum(hash, raw) != ""
  {
  }

  /** What is recorded for a file once the files `fs` have been applied. */
  lemma {:induction false} RecordedAfter(hash: string -> string, rows: seq<Row>, fs: seq<File>, f: File)
    requires NeverEmpty(hash) && DistinctNames(fs)
    ensures f.name !in NamesOfFiles(fs) ==> Recorded(rows + FileRows(hash, fs), f.name) == Recorded(rows, f.name)
    ensures f.name in NamesOfFiles(fs) ==> Recorded(rows + FileRows(hash, fs), f.name) != ""
    ensures f in fs ==> Recorded(rows + FileRows(hash, fs), f.name) == MigrationChecksum(hash, f.raw)
  {
    hide MigrationChecksum, Recorded;
    RecordedAppend(rows, FileRows(hash, fs), f.name);
    FileRowsRecord(hash, fs, f);
  }

  /** The pending list of the earlier files is an initial part of the pending list of all. */
  lemma {:induction false} PendingIsPrefix(dir: seq<File>, rows: seq<Row>, d: nat)
    requires d <= |dir|
    ensures PendingFiles(dir[..d], rows) <= PendingFiles(dir, rows)
    decreases |dir|
  {
    if d < |dir| {
      PendingIsPrefix(dir[..|dir| - 1], rows, d);
      assert dir[..|dir| - 1][..d] == dir[..d];
    } else {
      assert dir[..d] == dir;
    }
  }

  lemma {:induction false} PendingAreDistinct(dir: seq<File>, rows: seq<Row>)
    requires DistinctNames(dir)
    ensures DistinctNames(PendingFiles(dir, rows))
    ensures forall f :: f in PendingFiles(dir, rows) <==> f in dir && Recorded(rows, f.name) == ""
    decreases |dir|
  {
    if dir != [] {
      var n := |dir| - 1;
      PendingAreDistinct(dir[..n], rows);
      assert dir == dir[..n] + [dir[n]];
      assert forall f :: f in dir[..n] ==> f.name != dir[n].name;
    }
  }

  lemma {:induction false} PendingStep(dir: seq<File>, rows: seq<Row>, d: nat)
    requires d < |dir|
    ensures PendingFiles(dir[..d + 1], rows)
         == PendingFiles(dir[..d], rows) + (if Recorded(rows, dir[d].name) == "" then [dir[d]] else [])
  {
    hide Recorded;
    assert dir[..d + 1][..d] == dir[..d];
  }

  /** A pending file stands in the pending list behind the pending files before it. */
  lemma {:induction false} PlaceOfPending(dir: seq<File>, rows: seq<Row>, d: nat)
    requires d < |dir| && Recorded(rows, dir[d].name) == ""
    ensures var fs, i := PendingFiles(dir, rows), |PendingFiles(dir[..d], rows)|; i < |fs| && fs[i] == dir[d]
  {
    hide Recorded, PendingFiles;
    PendingStep(dir, rows, d);
    PendingIsPrefix(dir, rows, d + 1);
  }

  lemma {:induction false} NameAmongFirst(fs: seq<File>, i: nat, n: nat)
    requires DistinctNames(fs) && i < |fs| && n <= |fs|
    ensures fs[i].name in NamesOfFiles(fs[..n]) <==> i < n
  {
    if i < n {
      assert NamesOfFiles(fs[..n])[i] == fs[i].name;
    }
  }

  lemma {:induction false} DistinctPrefix(fs: seq<File>, n: nat)
    requires DistinctNames(fs) && n <= |fs|
    ensures DistinctNames(fs[..n])
  {
  }

  /** Whether the file at `d` is still pending after the first `n` pending files have been applied. */
  lemma {:induction false} StillPending(hash: string -> string, dir: seq<File>, rows: seq<Row>, n: nat, d: nat)
    requires NeverEmpty(hash) && DistinctNames(dir) && n <= |PendingFiles(dir, rows)| && d < |dir|
    ensures Recorded(rows + FileRows(hash, PendingFiles(dir, rows)[..n]), dir[d].name) == "" <==>
              Recorded(rows, dir[d].name) == "" && |PendingFiles(dir[..d], rows)| >= n
  {
    hide MigrationChecksum, Recorded, PendingFiles, NeverEmpty, DistinctNames, FileRows, NamesOfFiles;
    var fs := PendingFiles(dir, rows);
    PendingAreDistinct(dir, rows);
    DistinctPrefix(fs, n);
    RecordedAfter(hash, rows, fs[..n], dir[d]);
    if Recorded(rows, dir[d].name) == "" {
      PlaceOfPending(dir, rows, d);
      NameAmongFirst(fs, |PendingFiles(dir[..d], rows)|, n);
    }
  }

  /** Once the first `n` pending files are applied, the pending files are the others, in the same order. */
  lemma {:induction false} PendingAfter(hash: string -> string, dir: seq<File>, rows: seq<Row>, n: nat, d: nat)
    requires NeverEmpty(hash) && DistinctNames(dir) && n <= |PendingFiles(dir, rows)| && d <= |dir|
    ensures var p := PendingFiles(dir[..d], rows);
            PendingFiles(dir[..d], rows + FileRows(hash, PendingFiles(dir, rows)[..n])) ==
            if |p| <= n then [] else p[n..]
    decreases d
  {
    if d == 0 {
      NoneOfNone(rows);
      NoneOfNone(rows + FileRows(hash, PendingFiles(dir, rows)[..n]));
      assert dir[..0] == [];
    } else {
      hide MigrationChecksum, Recorded, FileRows, PendingFiles, NeverEmpty, DistinctNames;
      PendingAfter(hash, dir, rows, n, d - 1);
      StillPending(hash, dir, rows, n, d - 1);
      PendingStep(dir, rows, d - 1);
      PendingStep(dir, rows + FileRows(hash, PendingFiles(dir, rows)[..n]), d - 1);
    }
  }

  lemma {:induction false} NoneOfNone(rows: seq<Row>)
    ensures PendingFiles([], rows) == []
  {
  }

  /** `main` from a ledger and a directory, when no file drifts. */
  function RunOnce(means: Reading, hash: string -> string, dir: seq<File>, base: seq<Row>, commits: seq<Transaction>,
                   ack: string, faults: string -> Fault): (r: Run) {
    ApplyFrom(means, base, Session(commits, NoTxn), ToMigrations(hash, PendingFiles(dir, LedgerRows(base, commits))),
              ack, faults, 0)
  }

  /**
   * The ledger and the pending files after a run that stopped before pending file `n`, whatever the
   * bodies do; and the commits, if no harmful body is reached.
   */
  lemma {:induction false} AfterRun(means: Reading, hash: string -> string, dir: seq<File>, base: seq<Row>,
                                    commits: seq<Transaction>, ack: string, faults: string -> Fault) returns (n: nat)
    requires NeverEmpty(hash) && DistinctNames(dir)
    ensures var fs := PendingFiles(dir, LedgerRows(base, commits));
            var ms := ToMigrations(hash, fs);
            var r := RunOnce(means, hash, dir, base, commits, ack, faults);
            && n <= |fs|
            && StoppedAt(r.report, ms, ack, n)
            && r.session.open.NoTxn? && commits <= r.session.commits
            && LedgerRows(base, r.session.commits) == LedgerRows(base, commits) + FileRows(hash, fs[..n])
            && PendingFiles(dir, LedgerRows(base, r.session.commits)) == fs[n..]
            && (RunHarmless(means, ms, ack) ==> r.session == Session(commits + Units(means, ms[..n]), NoTxn))
  {
    hide Statements, Strip, MustHold, Unit, ApplyFrom, RunHarmless;
    var rows := LedgerRows(base, commits);
    var fs := PendingFiles(dir, rows);
    var ms := ToMigrations(hash, fs);
    n := RunRecordsPrefix(means, base, Session(commits, NoTxn), ms, ack, faults, 0);
    assert ms[0..n] == ms[..n];
    FileRowsAreRows(hash, fs, n);
    PendingAfter(hash, dir, rows, n, |dir|);
    assert dir[..|dir|] == dir;
    if RunHarmless(means, ms, ack) {
      RunAppliesPrefix(means, base, Session(commits, NoTxn), ms, ack, faults, 0, n);
    }
  }

  // ----- hold without skipping

  lemma {:induction false} NamesSplit(ms: seq<Migration>, n: nat)
    requires n <= |ms|
    ensures Names(ms[..n]) + Names(ms[n..]) == Names(ms)
  {
  }

  /**
   * When nothing fails, what was applied followed by what is held is the pending
   * list in file order; the held part begins at the first pending migration that
   * declares itself destructive and is not named, and an unchanged later run,
   * whatever then fails, applies nothing, commits nothing and holds the same list. This
   * does not depend on what the bodies do to the transaction.
   */
  lemma {:induction false} HoldWithoutSkipping(means: Reading, hash: string -> string, dir: seq<File>, base: seq<Row>,
                                               commits: seq<Transaction>, ack: string, faults: string -> Fault,
                                               later: string -> Fault)
    requires NeverEmpty(hash) && DistinctNames(dir)
    requires RunOnce(means, hash, dir, base, commits, ack, faults).report.Finished?
    ensures var ms := ToMigrations(hash, PendingFiles(dir, LedgerRows(base, commits)));
            var r := RunOnce(means, hash, dir, base, commits, ack, faults);
            && r.report.applied + r.report.held == Names(ms)
            && (forall k :: 0 <= k < |r.report.applied| ==> !MustHold(ms[k], ack))
            && (r.report.held != [] ==> MustHold(ms[|r.report.applied|], ack))
            && RunOnce(means, hash, dir, base, r.session.commits, ack, later)
                == Run(r.session, Finished([], r.report.held))
  {
    hide Statements, Strip, MustHold, Unit, RunOnce, PendingFiles;
    var fs := PendingFiles(dir, LedgerRows(base, commits));
    var ms := ToMigrations(hash, fs);
    var r := RunOnce(means, hash, dir, base, commits, ack, faults);
    var n := AfterRun(means, hash, dir, base, commits, ack, faults);
    NamesSplit(ms, n);
    assert ToMigrations(hash, fs[n..]) == ms[n..];
    HeldRunStops(means, base, r.session, ms[n..], ack, later);
    RunOnceIs(means, hash, dir, base, r.session.commits, ack, later);
  }

  lemma {:induction false} RunOnceIs(means: Reading, hash: string -> string, dir: seq<File>, base: seq<Row>,
                                     commits: seq<Transaction>, ack: string, faults: string -> Fault)
    ensures RunOnce(means, hash, dir, base, commits, ack, faults)
         == ApplyFrom(means, base, Session(commits, NoTxn),
                      ToMigrations(hash, PendingFiles(dir, LedgerRows(base, commits))), ack, faults, 0)
  {
    hide ApplyFrom;
  }

  lemma {:induction false} HeldRunStops(means: Reading, base: seq<Row>, s: Session, pending: seq<Migration>,
                                        ack: string, faults: string -> Fault)
    requires pending != [] ==> MustHold(pending[0], ack)
    ensures ApplyFrom(means, base, s, pending, ack, faults, 0) == Run(s, Finished([], Names(pending)))
  {
    hide MustHold;
    assert pending[..0] == [] && pending[0..] == pending;
  }

  // ----- the ledger as an initial part of the directory

  /** The ledger records exactly the first `n` files, with their present checksums. */
  ghost predicate LedgerIsPrefix(hash: string -> string, dir: seq<File>, rows: seq<Row>, n: nat) {
    n <= |dir| && rows == FileRows(hash, dir[..n])
  }

  lemma {:induction false} PendingBehindPrefix(hash: string -> string, dir: seq<File>, n: nat, d: nat)
    requires NeverEmpty(hash) && DistinctNames(dir) && n <= |dir| && d <= |dir|
    ensures PendingFiles(dir[..d], FileRows(hash, dir[..n])) == if d <= n then [] else dir[n..d]
    decreases d
  {
    hide MigrationChecksum, Recorded, FileRows;
    if d > 0 {
      PendingBehindPrefix(hash, dir, n, d - 1);
      assert dir[..d][..d - 1] == dir[..d - 1];
      var f := dir[d - 1];
      RecordedInPrefix(hash, dir, n, d - 1);
    }
  }

  lemma {:induction false} RecordedInPrefix(hash: string -> string, dir: seq<File>, n: nat, k: nat)
    requires NeverEmpty(hash) && DistinctNames(dir) && n <= |dir| && k < |dir|
    ensures Recorded(FileRows(hash, dir[..n]), dir[k].name) == if k < n then MigrationChecksum(hash, dir[k].raw) else ""
    ensures k < n ==> MigrationChecksum(hash, dir[k].raw) != ""
  {
    hide MigrationChecksum, FileRows, Recorded;
    ChecksumNonEmpty(hash, dir[k].raw);
    RecordedAfter(hash, [], dir[..n], dir[k]);
    assert [] + FileRows(hash, dir[..n]) == FileRows(hash, dir[..n]);
    RecordedNothing(dir[k].name);
    if k < n {
      assert dir[..n][k] == dir[k];
    }
  }

  lemma {:induction false} RecordedNothing(name: string)
    ensures Recorded([], name) == ""
  {
  }

  /**
   * A ledger that records an initial part of the directory records an initial part after any run,
   * and nothing drifts.
   */
  lemma {:induction false} PrefixStaysPrefix(means: Reading, hash: string -> string, dir: seq<File>, base: seq<Row>,
                                             commits: seq<Transaction>, ack: string, faults: string -> Fault, n: nat)
    returns (n': nat)
    requires NeverEmpty(hash) && DistinctNames(dir)
    requires LedgerIsPrefix(hash, dir, LedgerRows(base, commits), n)
    ensures n <= n'
    ensures LedgerIsPrefix(hash, dir,
                           LedgerRows(base, RunOnce(means, hash, dir, base, commits, ack, faults).session.commits), n')
    ensures forall f :: f in dir ==> !Drifts(hash, LedgerRows(base, commits), f)
  {
    hide Statements, Strip, Unit, RunOnce, PendingFiles, FileRows, MigrationChecksum, Recorded, LedgerRows, Drifts,
         NeverEmpty, DistinctNames;
    PendingOfPrefix(hash, dir, LedgerRows(base, commits), n);
    var k := AfterRun(means, hash, dir, base, commits, ack, faults);
    n' := n + k;
    FileRowsJoin(hash, dir, n, k);
  }

  lemma {:induction false} PendingOfPrefix(hash: string -> string, dir: seq<File>, rows: seq<Row>, n: nat)
    requires NeverEmpty(hash) && DistinctNames(dir) && LedgerIsPrefix(hash, dir, rows, n)
    ensures PendingFiles(dir, rows) == dir[n..]
    ensures forall f :: f in dir ==> !Drifts(hash, rows, f)
  {
    hide PendingFiles, FileRows, MigrationChecksum, Recorded, NeverEmpty, DistinctNames;
    PendingBehindPrefix(hash, dir, n, |dir|);
    assert dir[..|dir|] == dir;
    forall f | f in dir
      ensures !Drifts(hash, rows, f)
    {
      var j :| 0 <= j < |dir| && dir[j] == f;
      RecordedInPrefix(hash, dir, n, j);
    }
  }

  lemma {:induction false} FileRowsJoin(hash: string -> string, dir: seq<File>, n: nat, k: nat)
    requires n + k <= |dir|
    ensures FileRows(hash, dir[..n]) + FileRows(hash, dir[n..][..k]) == FileRows(hash, dir[..n + k])
  {
    hide MigrationChecksum;
    assert dir[n..][..k] == dir[n..n + k];
  }

  // ----- line endings

  /** The same files, each with its line endings rewritten in some convention. */
  ghost predicate SameButEndings(dir: seq<File>, dir': seq<File>) {
    |dir'| == |dir| && forall k :: 0 <= k < |dir| ==> Respelled(dir[k], dir'[k])
  }

  ghost predicate Respelled(f: File, f': File) {
    f'.name == f.name && exists e :: f'.raw == Convert(f.raw, e)
  }

  lemma {:induction false} RespelledDecidesTheSame(hash: string -> string, rows: seq<Row>, f: File, f': File)
    requires Respelled(f, f')
    ensures f'.name == f.name && MigrationChecksum(hash, f'.raw) == MigrationChecksum(hash, f.raw)
    ensures Drifts(hash, rows, f') <==> Drifts(hash, rows, f)
  {
    hide MigrationChecksum, Convert;
    var e :| f'.raw == Convert(f.raw, e);
    ChecksumIgnoresLineEndings(hash, f.raw, e);
  }

  /**
   * Rewriting line endings changes neither which file drifts, nor which are pending, nor what the
   * ledger would record.
   */
  lemma {:induction false} PlanIgnoresLineEndings(hash: string -> string, dir: seq<File>, dir': seq<File>,
                                                  rows: seq<Row>)
    requires SameButEndings(dir, dir')
    ensures forall k :: 0 <= k < |dir| ==> (Drifts(hash, rows, dir'[k]) <==> Drifts(hash, rows, dir[k]))
    ensures FileRows(hash, PendingFiles(dir', rows)) == FileRows(hash, PendingFiles(dir, rows))
    decreases |dir|
  {
    hide Respelled, MigrationChecksum, Recorded;
    forall k | 0 <= k < |dir|
      ensures Drifts(hash, rows, dir'[k]) <==> Drifts(hash, rows, dir[k])
    {
      RespelledDecidesTheSame(hash, rows, dir[k], dir'[k]);
    }
    if dir != [] {
      var n := |dir| - 1;
      RespelledDecidesTheSame(hash, rows, dir[n], dir'[n]);
      PlanIgnoresLineEndings(hash, dir[..n], dir'[..n], rows);
      var p, p' := PendingFiles(dir[..n], rows), PendingFiles(dir'[..n], rows);
      FileRowsAppend(hash, p, dir[n]);
      FileRowsAppend(hash, p', dir'[n]);
      assert p + [] == p && p' + [] == p';
    }
  }

  lemma {:induction false} FileRowsAppend(hash: string -> string, fs: seq<File>, f: File)
    ensures FileRows(hash, fs + [f]) == FileRows(hash, fs) + [Row(f.name, MigrationChecksum(hash, f.raw))]
  {
    hide MigrationChecksum;
  }
}
