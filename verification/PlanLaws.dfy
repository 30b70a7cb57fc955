/** What the plan of a run is made of: which files are pending, in which order, and which edits stop everything. */
module PlanLaws {
  import opened Text
  import opened Checksum
  import opened Database
  import opened Runner
  import opened RunLaws

  /** The indices rise, and are exactly those of the files without a recorded checksum. */
  ghost predicate PendingAt(dir: seq<File>, rows: seq<Row>, at: seq<nat>) {
    && (forall x :: 0 <= x < |at| ==> at[x] < |dir|)
    && (forall x, y :: 0 <= x < y < |at| ==> at[x] < at[y])
    && forall k :: 0 <= k < |dir| ==> (k in at <==> Recorded(rows, dir[k].name) == "")
  }

  /** The pending list is those files in directory order. */
  lemma {:induction false} PendingInOrder(dir: seq<File>, rows: seq<Row>) returns (at: seq<nat>)
    ensures PendingAt(dir, rows, at) && |PendingFiles(dir, rows)| == |at|
    ensures forall x :: 0 <= x < |at| ==> PendingFiles(dir, rows)[x] == dir[at[x]]
    decreases |dir|
  {
    hide Recorded;
    if dir == [] {
      at := [];
    } else {
      var n := |dir| - 1;
      at := PendingInOrder(dir[..n], rows);
      if Recorded(rows, dir[n].name) == "" {
        at := at + [n];
      }
    }
  }

  /** With nothing empty in the ledger, a file is pending if and only if no row has its name. */
  lemma {:induction false} PendingIffNoRow(dir: seq<File>, rows: seq<Row>, k: nat)
    requires DistinctNames(dir) && k < |dir| && forall r :: r in rows ==> r.checksum != ""
    ensures dir[k] in PendingFiles(dir, rows) <==> !HasRow(rows, dir[k].name)
  {
    hide PendingFiles;
    PendingAreDistinct(dir, rows);
    RecordedIffRow(rows, dir[k].name);
  }

  lemma {:induction false} RecordedIffRow(rows: seq<Row>, name: string)
    requires forall r :: r in rows ==> r.checksum != ""
    ensures Recorded(rows, name) == "" <==> !HasRow(rows, name)
    decreases |rows|
  {
    if rows != [] {
      var n := |rows| - 1;
      RecordedIffRow(rows[..n], name);
      assert rows[n] in rows;
      assert rows == rows[..n] + [rows[n]];
      HasRowAppend(rows[..n], [rows[n]], name);
      assert HasRow([rows[n]], name) <==> [rows[n]][0].name == name;
    }
  }

  // ----- drift

  ghost predicate Injective(hash: string -> string) {
    forall x, y :: hash(x) == hash(y) ==> x == y
  }

  /** A file without a carriage return is hashed as it is. */
  lemma {:induction false} PlainTextIsHashed(hash: string -> string, s: string)
    requires '\r' !in s
    ensures MigrationChecksum(hash, s) == hash(s)
  {
    NothingReplaced(s);
  }

  lemma {:induction false} NothingReplaced(s: string)
    requires '\r' !in s
    ensures ReplaceCrLf(s) == s && ReplaceCr(s) == s
  {
    if s != [] {
      NothingReplaced(s[1..]);
    }
  }

  /** A file that was recorded with content `s` drifts exactly when it has changed by more than its line endings. */
  lemma {:induction false} DriftsIff(hash: string -> string, rows: seq<Row>, f: File, s: string)
    requires Injective(hash) && NeverEmpty(hash) && Recorded(rows, f.name) == MigrationChecksum(hash, s)
    ensures Drifts(hash, rows, f) <==> Convert(f.raw, CrLf) != Convert(s, CrLf)
  {
    hide NormaliseLineEndings, Convert;
    SameChecksumIffSameContent(hash, f.raw, s);
    ChecksumNonEmpty(hash, s);
  }

  /**
   * Whatever the bodies do: once a run has applied a file, a later run over a directory in
   * which the file has the text `raw` stops on it if and only if `raw` differs by more than
   * line endings.
   */
  lemma {:induction false} EditedFileStopsRuns(means: Reading, hash: string -> string, dir: seq<File>, base: seq<Row>,
                                               commits: seq<Transaction>, ack: string, faults: string -> Fault,
                                               k: nat, raw: string) returns (n: nat)
    requires Injective(hash) && NeverEmpty(hash) && DistinctNames(dir)
    ensures var fs := PendingFiles(dir, LedgerRows(base, commits));
            var r := RunOnce(means, hash, dir, base, commits, ack, faults);
            && n <= |fs| && r.report.applied == Names(ToMigrations(hash, fs)[..n])
            && (k < n ==>
                  (Drifts(hash, LedgerRows(base, r.session.commits), File(fs[k].name, raw))
                   <==> Convert(raw, CrLf) != Convert(fs[k].raw, CrLf)))
  {
    hide MigrationChecksum, Convert, RunOnce, PendingFiles, LedgerRows, Recorded, DistinctNames, NeverEmpty;
    n := AfterRun(means, hash, dir, base, commits, ack, faults);
    var rows, fs := LedgerRows(base, commits), PendingFiles(dir, LedgerRows(base, commits));
    if k < n {
      PendingAreDistinct(dir, rows);
      DistinctPrefix(fs, n);
      assert fs[..n][k] == fs[k];
      RecordedInRows(hash, rows, fs[..n], k);
      DriftsIff(hash, rows + FileRows(hash, fs[..n]), File(fs[k].name, raw), fs[k].raw);
    }
  }

  lemma {:induction false} RecordedInRows(hash: string -> string, rows: seq<Row>, fs: seq<File>, k: nat)
    requires NeverEmpty(hash) && DistinctNames(fs) && k < |fs|
    ensures Recorded(rows + FileRows(hash, fs), fs[k].name) == MigrationChecksum(hash, fs[k].raw)
  {
    hide MigrationChecksum;
    RecordedAfter(hash, rows, fs, fs[k]);
    assert NamesOfFiles(fs)[k] == fs[k].name;
  }
}
