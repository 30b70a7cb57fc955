/** A run from a Windows checkout does what the same run does from a Unix checkout. */
module WindowsRuns {
  import opened Text
  import opened Scanner
  import opened Stripper
  import opened SqlStatements
  import opened Checksum
  import opened Database
  import opened Harmless
  import opened Runner
  import opened RunLaws
  import opened LineEndings
  import opened WindowsFiles

  /** What a text means to the database does not depend on its line endings. */
  ghost predicate ReadsAlike(means: Reading) {
    forall x, y :: Windows(x, y) ==> means(x) == means(y)
  }

  // ----- alike, up to the line endings inside the text of work

  ghost predicate TextAlike(x: string, y: string) {
    x == y || Windows(x, y)
  }

  ghost predicate ActAlike(a: Act, b: Act) {
    match a
    case Controls(_) => b == a
    case Does(text) => b.Does? && TextAlike(text, b.text)
  }

  ghost predicate ActsAlike(acts: seq<Act>, acts': seq<Act>) {
    |acts'| == |acts| && forall j :: 0 <= j < |acts| ==> ActAlike(acts[j], acts'[j])
  }

  ghost predicate TxnAlike(t: Transaction, t': Transaction) {
    && t'.rows == t.rows && |t'.stmts| == |t.stmts|
    && forall j :: 0 <= j < |t.stmts| ==> TextAlike(t.stmts[j], t'.stmts[j])
  }

  ghost predicate CommitsAlike(c: seq<Transaction>, c': seq<Transaction>) {
    |c'| == |c| && forall j :: 0 <= j < |c| ==> TxnAlike(c[j], c'[j])
  }

  ghost predicate OpenAlike(o: Open, o': Open) {
    match o
    case NoTxn => o'.NoTxn?
    case InBlock(t) => o'.InBlock? && TxnAlike(t, o'.txn)
    case Implicit(t) => o'.Implicit? && TxnAlike(t, o'.txn)
  }

  ghost predicate SessionAlike(s: Session, s': Session) {
    CommitsAlike(s.commits, s'.commits) && OpenAlike(s.open, s'.open)
  }

  // ----- what is asked for

  lemma {:induction false} ActsOfAlike(means: Reading, ss: seq<Stmt>, tt: seq<Stmt>)
    requires ReadsAlike(means) && (ss == tt || StmtsAlike(ss, tt))
    ensures ActsAlike(Acts(means, ss), Acts(means, tt))
  {
    hide Windows;
    forall j | 0 <= j < |ss|
      ensures ActAlike(ActOf(means, ss[j]), ActOf(means, tt[j]))
    {
      assert ss == tt || StmtAlike(ss[j], tt[j]);
    }
  }

  lemma {:induction false} PhaseAlike(acts: seq<Act>, acts': seq<Act>)
    requires ActsAlike(acts, acts')
    ensures PhaseOf(acts') == PhaseOf(acts)
  {
    hide TextAlike;
    if acts != [] {
      var n := |acts| - 1;
      PhaseAlike(acts[..n], acts'[..n]);
      assert ActAlike(acts[n], acts'[n]);
    }
  }

  // ----- the database in step

  lemma {:induction false} CommitAlike(c: seq<Transaction>, t: Transaction, c': seq<Transaction>, t': Transaction)
    requires CommitsAlike(c, c') && TxnAlike(t, t')
    ensures CommitsAlike(c + [t], c' + [t']) && CommitsAlike(Committed(c, t), Committed(c', t'))
  {
    hide TextAlike;
  }

  lemma {:induction false} ExecTxnAlike(s: Session, s': Session, k: Keyword)
    requires SessionAlike(s, s')
    ensures SessionAlike(ExecTxn(s, k), ExecTxn(s', k))
  {
    hide TextAlike, CommitsAlike, Committed;
    if !s.open.NoTxn? {
      CommitAlike(s.commits, s.open.txn, s'.commits, s'.open.txn);
    }
  }

  lemma {:induction false} AddTextAlike(t: Transaction, t': Transaction, x: string, y: string)
    requires TxnAlike(t, t') && TextAlike(x, y)
    ensures TxnAlike(AddText(t, x), AddText(t', y))
  {
    hide TextAlike;
  }

  lemma {:induction false} ExecActAlike(s: Session, s': Session, a: Act, a': Act)
    requires SessionAlike(s, s') && ActAlike(a, a')
    ensures SessionAlike(ExecAct(s, a), ExecAct(s', a'))
  {
    hide TextAlike, CommitsAlike, ExecTxn, AddText;
    match a
    case Controls(k) =>
      ExecTxnAlike(s, s', k);
    case Does(text) =>
      AddTextAlike(NOTHING, NOTHING, text, a'.text);
      if !s.open.NoTxn? {
        AddTextAlike(s.open.txn, s'.open.txn, text, a'.text);
      }
  }

  lemma {:induction false} EndsAlike(s: Session, s': Session)
    requires SessionAlike(s, s')
    ensures SessionAlike(EndQuery(s), EndQuery(s')) && SessionAlike(FailQuery(s), FailQuery(s'))
  {
    hide TextAlike, CommitsAlike, Committed;
    if s.open.Implicit? {
      CommitAlike(s.commits, s.open.txn, s'.commits, s'.open.txn);
    }
  }

  lemma {:induction false} ExecBodyAlike(s: Session, acts: seq<Act>, s': Session, acts': seq<Act>, j: nat, fault: Fault)
    requires SessionAlike(s, s') && ActsAlike(acts, acts') && j <= |acts|
    ensures var r, r' := ExecBody(s, acts, j, fault), ExecBody(s', acts', j, fault);
            r'.ok == r.ok && SessionAlike(r.session, r'.session)
    decreases |acts| - j
  {
    hide SessionAlike, ActAlike, ExecAct, EndQuery, FailQuery;
    EndsAlike(s, s');
    if j < |acts| && fault != InBody(j) {
      ExecActAlike(s, s', acts[j], acts'[j]);
      EndsAlike(ExecAct(s, acts[j]), ExecAct(s', acts'[j]));
      ExecBodyAlike(ExecIn(s, acts, j), acts, ExecIn(s', acts', j), acts', j + 1, fault);
    }
  }

  lemma {:induction false} RowsAlike(c: seq<Transaction>, c': seq<Transaction>)
    requires CommitsAlike(c, c')
    ensures RowsOf(c') == RowsOf(c)
  {
    hide TextAlike;
    if c != [] {
      var n := |c| - 1;
      RowsAlike(c[..n], c'[..n]);
      assert TxnAlike(c[n], c'[n]);
    }
  }

  lemma {:induction false} InsertAlike(s: Session, s': Session, row: Row)
    requires SessionAlike(s, s')
    ensures SessionAlike(InsertRow(s, row), InsertRow(s', row))
  {
    hide TextAlike, CommitsAlike;
    var one := Transaction([], [row]);
    CommitAlike(s.commits, one, s'.commits, one);
    if !s.open.NoTxn? {
      var t, t' := s.open.txn, s'.open.txn;
      CommitAlike(s.commits, t.(rows := t.rows + [row]), s'.commits, t'.(rows := t'.rows + [row]));
    }
  }

  lemma {:induction false} CollidesAlike(base: seq<Row>, s: Session, s': Session, name: string)
    requires SessionAlike(s, s')
    ensures Collides(base, s', name) <==> Collides(base, s, name)
  {
    hide TextAlike, CommitsAlike, HasRow;
    RowsAlike(s.commits, s'.commits);
  }

  // ----- the runner in step

  ghost predicate MigrationAlike(means: Reading, m: Migration, m': Migration) {
    && m'.name == m.name && m'.checksum == m.checksum
    && (DeclaresDestructive(m'.sql) <==> DeclaresDestructive(m.sql))
    && ActsAlike(Asks(means, m.sql), Asks(means, m'.sql))
  }

  lemma {:induction false} ApplyOneAlike(means: Reading, base: seq<Row>, s: Session, m: Migration, s': Session,
                                         m': Migration, fault: Fault)
    requires SessionAlike(s, s') && MigrationAlike(means, m, m')
    ensures var r, r' := ApplyOne(means, base, s, m, fault), ApplyOne(means, base, s', m', fault);
            r'.ok == r.ok && SessionAlike(r.session, r'.session)
  {
    hide SessionAlike, ActsAlike, ExecTxn, ExecBody, Collides, InsertRow, Asks, DeclaresDestructive;
    ExecTxnAlike(s, s', Begin);
    ExecBodyAlike(ExecTxn(s, Begin), Asks(means, m.sql), ExecTxn(s', Begin), Asks(means, m'.sql), 0, fault);
    var body := ExecBody(ExecTxn(s, Begin), Asks(means, m.sql), 0, fault).session;
    var body' := ExecBody(ExecTxn(s', Begin), Asks(means, m'.sql), 0, fault).session;
    CollidesAlike(base, body, body', m.name);
    ExecTxnAlike(body, body', Rollback);
    var row := Row(m.name, m.checksum);
    InsertAlike(body, body', row);
    ExecTxnAlike(InsertRow(body, row), InsertRow(body', row), Rollback);
    ExecTxnAlike(InsertRow(body, row), InsertRow(body', row), Commit);
    RefusalAlike(InsertRow(body, row), InsertRow(body', row), fault);
  }

  lemma {:induction false} RefusalAlike(s: Session, s': Session, fault: Fault)
    requires SessionAlike(s, s')
    ensures RefusesCommit(s', fault) <==> RefusesCommit(s, fault)
  {
  }

  ghost predicate MigrationsAlike(means: Reading, ms: seq<Migration>, ms': seq<Migration>) {
    |ms'| == |ms| && forall k :: 0 <= k < |ms| ==> MigrationAlike(means, ms[k], ms'[k])
  }

  lemma {:induction false} SameNames(means: Reading, ms: seq<Migration>, ms': seq<Migration>, k: nat)
    requires MigrationsAlike(means, ms, ms') && k <= |ms|
    ensures Names(ms') == Names(ms) && Names(ms'[..k]) == Names(ms[..k]) && Names(ms'[k..]) == Names(ms[k..])
  {
    hide Asks, ActsAlike, DeclaresDestructive;
    assert forall j :: 0 <= j < |ms| ==> MigrationAlike(means, ms[j], ms'[j]);
  }

  lemma {:induction false} ApplyFromAlike(means: Reading, base: seq<Row>, s: Session, ms: seq<Migration>, s': Session,
                                          ms': seq<Migration>, ack: string, faults: string -> Fault, k: nat)
    requires SessionAlike(s, s') && MigrationsAlike(means, ms, ms') && k <= |ms|
    ensures var r := ApplyFrom(means, base, s, ms, ack, faults, k);
            var r' := ApplyFrom(means, base, s', ms', ack, faults, k);
            r'.report == r.report && SessionAlike(r.session, r'.session)
    decreases |ms| - k
  {
    hide SessionAlike, ActsAlike, ApplyOne, Asks, DeclaresDestructive, Names, Authorised;
    SameNames(means, ms, ms', k);
    if k < |ms| && !MustHold(ms[k], ack) {
      ApplyOneAlike(means, base, s, ms[k], s', ms'[k], faults(ms[k].name));
      var one := ApplyOne(means, base, s, ms[k], faults(ms[k].name));
      var one' := ApplyOne(means, base, s', ms'[k], faults(ms[k].name));
      if one.ok {
        ApplyFromAlike(means, base, one.session, ms, one'.session, ms', ack, faults, k + 1);
      }
    }
  }

  // ----- the two checkouts

  /** The same file, taken over as it is, or from Unix line endings to Windows ones. */
  ghost predicate FileCheckout(f: File, f': File) {
    f'.name == f.name && (f'.raw == f.raw || (f.raw == Convert(f.raw, Lf) && f'.raw == Convert(f.raw, CrLf)))
  }

  /** The same directory, any of its files in Windows spelling. */
  ghost predicate WindowsCheckout(dir: seq<File>, dir': seq<File>) {
    |dir'| == |dir| && forall k :: 0 <= k < |dir| ==> FileCheckout(dir[k], dir'[k])
  }

  lemma {:induction false} ToMigrationAlike(means: Reading, hash: string -> string, f: File, f': File)
    requires ReadsAlike(means) && FileCheckout(f, f')
    ensures MigrationAlike(means, ToMigration(hash, f), ToMigration(hash, f'))
    ensures MigrationChecksum(hash, f'.raw) == MigrationChecksum(hash, f.raw)
    ensures IsHarmless(Asks(means, Strip(f'.raw))) <==> IsHarmless(Asks(means, Strip(f.raw)))
  {
    hide Convert, MigrationChecksum, Strip, Statements, DeclaresDestructive, StmtsAlike, Findings, ReadsAlike,
         ActsAlike, PhaseOf;
    WindowsCheckoutIsTheSame(f.raw);
    ChecksumIgnoresLineEndings(hash, f.raw, CrLf);
    ActsOfAlike(means, Statements(Strip(f.raw)), Statements(Strip(f'.raw)));
    PhaseAlike(Asks(means, Strip(f.raw)), Asks(means, Strip(f'.raw)));
  }

  lemma {:induction false} OneMoreAlike(means: Reading, hash: string -> string, fs: seq<File>, f: File, fs': seq<File>,
                                        f': File)
    requires MigrationsAlike(means, ToMigrations(hash, fs), ToMigrations(hash, fs'))
    requires MigrationAlike(means, ToMigration(hash, f), ToMigration(hash, f'))
    ensures MigrationsAlike(means, ToMigrations(hash, fs + [f]), ToMigrations(hash, fs' + [f']))
  {
    hide MigrationAlike, ToMigration;
    var ms, ms' := ToMigrations(hash, fs), ToMigrations(hash, fs');
    assert ToMigrations(hash, fs + [f]) == ms + [ToMigration(hash, f)];
    assert ToMigrations(hash, fs' + [f']) == ms' + [ToMigration(hash, f')];
  }

  lemma {:induction false} PendingAlike(means: Reading, hash: string -> string, dir: seq<File>, dir': seq<File>,
                                        rows: seq<Row>)
    requires ReadsAlike(means) && WindowsCheckout(dir, dir')
    ensures MigrationsAlike(means, ToMigrations(hash, PendingFiles(dir, rows)),
                            ToMigrations(hash, PendingFiles(dir', rows)))
  {
    hide ReadsAlike, MigrationAlike, Recorded, ToMigration, Convert, ToMigrations;
    if dir == [] {
      assert PendingFiles(dir', rows) == PendingFiles(dir, rows) == [];
      NoMigrations(means, hash);
    } else {
      var n := |dir| - 1;
      PendingAlike(means, hash, dir[..n], dir'[..n], rows);
      assert FileCheckout(dir[n], dir'[n]);
      ToMigrationAlike(means, hash, dir[n], dir'[n]);
      var p, p' := PendingFiles(dir[..n], rows), PendingFiles(dir'[..n], rows);
      OneMoreAlike(means, hash, p, dir[n], p', dir'[n]);
      assert p + [] == p && p' + [] == p';
    }
  }

  lemma {:induction false} NoMigrations(means: Reading, hash: string -> string)
    ensures MigrationsAlike(means, ToMigrations(hash, []), ToMigrations(hash, []))
  {
  }

  lemma {:induction false} DriftAlike(hash: string -> string, rows: seq<Row>, f: File, f': File)
    requires FileCheckout(f, f')
    ensures Drifts(hash, rows, f') <==> Drifts(hash, rows, f)
  {
    hide Convert, MigrationChecksum, Recorded;
    ChecksumIgnoresLineEndings(hash, f.raw, CrLf);
  }

  /**
   * Any file of the directory may be checked out with `\r\n`: the same files drift,
   * each is harmless to the runner in both spellings or in neither, and from a
   * database left by alike runs every run holds, applies and fails the same migrations,
   * commits alike transactions and leaves the same ledger.
   */
  lemma {:induction false} WindowsRunIsTheSame(means: Reading, hash: string -> string, dir: seq<File>, dir': seq<File>,
                                               base: seq<Row>, commits: seq<Transaction>, commits': seq<Transaction>,
                                               ack: string, faults: string -> Fault)
    requires ReadsAlike(means) && WindowsCheckout(dir, dir') && CommitsAlike(commits, commits')
    ensures forall k :: 0 <= k < |dir| ==>
              (Drifts(hash, LedgerRows(base, commits'), dir'[k]) <==> Drifts(hash, LedgerRows(base, commits), dir[k]))
    ensures forall k :: 0 <= k < |dir| ==>
              (IsHarmless(Asks(means, Strip(dir'[k].raw))) <==> IsHarmless(Asks(means, Strip(dir[k].raw))))
    ensures var r := RunOnce(means, hash, dir, base, commits, ack, faults);
            var r' := RunOnce(means, hash, dir', base, commits', ack, faults);
            && r'.report == r.report && SessionAlike(r.session, r'.session)
            && LedgerRows(base, r'.session.commits) == LedgerRows(base, r.session.commits)
  {
    hide ReadsAlike, FileCheckout, CommitsAlike, Drifts, ApplyFrom, MigrationsAlike, PendingFiles, ToMigrations,
         IsHarmless, Asks, Strip;
    var rows := LedgerRows(base, commits);
    RowsAlike(commits, commits');
    forall k | 0 <= k < |dir|
      ensures Drifts(hash, rows, dir'[k]) <==> Drifts(hash, rows, dir[k])
      ensures IsHarmless(Asks(means, Strip(dir'[k].raw))) <==> IsHarmless(Asks(means, Strip(dir[k].raw)))
    {
      DriftAlike(hash, rows, dir[k], dir'[k]);
      ToMigrationAlike(means, hash, dir[k], dir'[k]);
    }
    PendingAlike(means, hash, dir, dir', rows);
    var ms, ms' := ToMigrations(hash, PendingFiles(dir, rows)), ToMigrations(hash, PendingFiles(dir', rows));
    ApplyFromAlike(means, base, Session(commits, NoTxn), ms, Session(commits', NoTxn), ms', ack, faults, 0);
    SessionRowsAlike(ApplyFrom(means, base, Session(commits, NoTxn), ms, ack, faults, 0).session,
                     ApplyFrom(means, base, Session(commits', NoTxn), ms', ack, faults, 0).session);
  }

  lemma {:induction false} SessionRowsAlike(s: Session, s': Session)
    requires SessionAlike(s, s')
    ensures RowsOf(s'.commits) == RowsOf(s.commits)
  {
    RowsAlike(s.commits, s'.commits);
  }
}
