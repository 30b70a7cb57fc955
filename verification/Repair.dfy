/** The ledger repair: what the guarded UPDATEs do to the ledger and to the next run. */
module Repair {
  import opened Text
  import opened Scanner
  import opened Checksum
  import opened Database
  import opened Runner
  import opened RunLaws

  // ----- the statements

  datatype Update = Update(name: string, checksum: string)

  function RepairRow(hash: string -> string, f: File): (u: Update) {
    Update(f.name, MigrationChecksum(hash, f.raw))
  }

  function RepairRows(hash: string -> string, dir: seq<File>): (us: seq<Update>)
    ensures |us| == |dir|
  {
    seq(|dir|, k requires 0 <= k < |dir| => RepairRow(hash, dir[k]))
  }

  function DoubleQuotes(v: string): (w: string) {
    if v == [] then [] else (if v[0] == '\'' then ['\'', '\''] else [v[0]]) + DoubleQuotes(v[1..])
  }

  /** `sqlLiteral`. */
  function SqlLiteral(v: string): (w: string) {
    ['\''] + DoubleQuotes(v) + ['\'']
  }

  /** `SET checksum = u.checksum WHERE name = u.name AND checksum <> u.checksum`. */
  function Apply(u: Update, row: Row): (r: Row) {
    if row.name == u.name && row.checksum != u.checksum then Row(row.name, u.checksum) else row
  }

  function ApplyAll(us: seq<Update>, row: Row): (r: Row) {
    if us == [] then row else Apply(us[|us| - 1], ApplyAll(us[..|us| - 1], row))
  }

  function Repaired(us: seq<Update>, rows: seq<Row>): (r: seq<Row>)
    ensures |r| == |rows|
  {
    seq(|rows|, k requires 0 <= k < |rows| => ApplyAll(us, rows[k]))
  }

  /** The ledger table under the repair script. */
  class LedgerTable {
    var rows: seq<Row>

    constructor (rows: seq<Row>)
      ensures this.rows == rows
    {
      this.rows := rows;
    }

    /** One UPDATE; returns how many rows it rewrote. */
    method Execute(u: Update) returns (rewritten: nat)
      modifies this
      ensures rows == Repaired([u], old(rows))
      ensures rewritten == 0 <==> rows == old(rows)
    {
      var done: seq<Row> := [];
      rewritten := 0;
      var k := 0;
      while k < |rows|
        invariant 0 <= k <= |rows| && rows == old(rows)
        invariant |done| == k && forall x :: 0 <= x < k ==> done[x] == Apply(u, rows[x])
        invariant rewritten == 0 <==> forall x :: 0 <= x < k ==> done[x] == rows[x]
      {
        var next := Apply(u, rows[k]);
        if next != rows[k] {
          rewritten := rewritten + 1;
        }
        done := done + [next];
        k := k + 1;
      }
      rows := done;
      forall x | 0 <= x < |rows|
        ensures rows[x] == ApplyAll([u], old(rows)[x])
      {
        OneUpdate(u, old(rows)[x]);
      }
    }

    /** The whole script, in file order; one transaction, so nothing is seen in between. */
    method RunRepair(us: seq<Update>)
      modifies this
      ensures rows == Repaired(us, old(rows))
    {
      var k := 0;
      NoUpdates(rows);
      while k < |us|
        invariant 0 <= k <= |us| && rows == Repaired(us[..k], old(rows))
      {
        var n := Execute(us[k]);
        OneMoreUpdate(us, k, old(rows));
        k := k + 1;
      }
      assert us[..k] == us;
    }
  }

  lemma {:induction false} OneUpdate(u: Update, row: Row)
    ensures ApplyAll([u], row) == Apply(u, row)
  {
    assert [u][..0] == [];
  }

  lemma {:induction false} NoUpdates(rows: seq<Row>)
    ensures Repaired([], rows) == rows
  {
  }

  lemma {:induction false} OneMoreUpdate(us: seq<Update>, k: nat, rows: seq<Row>)
    requires k < |us|
    ensures Repaired([us[k]], Repaired(us[..k], rows)) == Repaired(us[..k + 1], rows)
  {
    assert us[..k + 1][..k] == us[..k];
    forall x | 0 <= x < |rows|
      ensures Repaired([us[k]], Repaired(us[..k], rows))[x] == ApplyAll(us[..k + 1], rows[x])
    {
      OneUpdate(us[k], Repaired(us[..k], rows)[x]);
    }
  }

  // ----- the literals

  /** A literal is one literal for the masker too, whatever the name in it: it ends exactly where it was closed. */
  lemma {:induction false} LiteralIsOneLiteral(v: string, rest: string)
    requires rest == [] || rest[0] != '\''
    ensures QuoteEnd(SqlLiteral(v) + rest, 0) == Some(|SqlLiteral(v)|)
  {
    LiteralCloses(v, ['\''], rest, None);
    assert ['\''] + DoubleQuotes(v) + ['\''] + rest == SqlLiteral(v) + rest;
  }

  lemma {:induction false} LiteralCloses(v: string, before: string, rest: string, last: Option<nat>)
    requires rest == [] || rest[0] != '\''
    requires last.Some? ==> last.value < |before|
    ensures QuoteClose(before + DoubleQuotes(v) + ['\''] + rest, |before|, last)
         == Some(|before| + |DoubleQuotes(v)| + 1)
    decreases |v|
  {
    var s := before + DoubleQuotes(v) + ['\''] + rest;
    if v != [] {
      var head := if v[0] == '\'' then ['\'', '\''] else [v[0]];
      assert s == (before + head) + DoubleQuotes(v[1..]) + ['\''] + rest;
      LiteralCloses(v[1..], before + head, rest, if v[0] == '\'' then Some(|before| + 1) else last);
      assert s[|before|] == head[0];
      if v[0] == '\'' {
        assert s[|before| + 1] == '\'';
      }
    } else {
      assert s[|before|] == '\'';
      assert |before| + 1 < |s| ==> s[|before| + 1] == rest[0];
    }
  }

  /** What a literal stands for: its body, with every doubled quote read as one. */
  function Undoubled(w: string): (v: string) {
    if w == [] then []
    else if |w| >= 2 && w[0] == '\'' && w[1] == '\'' then ['\''] + Undoubled(w[2..])
    else [w[0]] + Undoubled(w[1..])
  }

  /** The literal stands for the name it was written for. */
  lemma {:induction false} LiteralStandsFor(v: string)
    ensures var w := SqlLiteral(v);
            |w| >= 2 && w[0] == '\'' && w[|w| - 1] == '\'' && Undoubled(w[1..|w| - 1]) == v
  {
    var w := SqlLiteral(v);
    assert w[1..|w| - 1] == DoubleQuotes(v);
    UndoubleDouble(v);
  }

  lemma {:induction false} UndoubleDouble(v: string)
    ensures Undoubled(DoubleQuotes(v)) == v
  {
    if v != [] {
      UndoubleDouble(v[1..]);
      var rest := DoubleQuotes(v[1..]);
      if v[0] == '\'' {
        assert (['\'', '\''] + rest)[2..] == rest;
      } else {
        assert ([v[0]] + rest)[1..] == rest;
      }
    }
  }

  // ----- what the repair does

  lemma {:induction false} ApplyAllName(us: seq<Update>, row: Row)
    ensures ApplyAll(us, row).name == row.name
  {
    if us != [] {
      ApplyAllName(us[..|us| - 1], row);
    }
  }

  /** A row ends with the checksum of its file, if it has one, and is untouched otherwise. */
  lemma {:induction false} ApplyAllChecksum(hash: string -> string, dir: seq<File>, row: Row)
    requires DistinctNames(dir)
    ensures var r := ApplyAll(RepairRows(hash, dir), row);
            && r.name == row.name
            && (forall k ::
                  0 <= k < |dir| && dir[k].name == row.name
                  ==> r.checksum == MigrationChecksum(hash, dir[k].raw))
            && (row.name !in NamesOfFiles(dir) ==> r == row)
    decreases |dir|
  {
    hide MigrationChecksum;
    if dir != [] {
      var n := |dir| - 1;
      var us := RepairRows(hash, dir);
      assert us[..n] == RepairRows(hash, dir[..n]);
      ApplyAllChecksum(hash, dir[..n], row);
      if row.name !in NamesOfFiles(dir) {
        assert NamesOfFiles(dir)[n] == dir[n].name;
        assert forall k :: 0 <= k < n ==> NamesOfFiles(dir[..n])[k] == NamesOfFiles(dir)[k];
      }
    }
  }

  lemma {:induction false} RecordedRepaired(us: seq<Update>, rows: seq<Row>, name: string)
    ensures HasRow(Repaired(us, rows), name) <==> HasRow(rows, name)
    ensures HasRow(rows, name)
            ==> Recorded(Repaired(us, rows), name) == ApplyAll(us, Row(name, Recorded(rows, name))).checksum
    ensures !HasRow(rows, name) ==> Recorded(rows, name) == "" && Recorded(Repaired(us, rows), name) == ""
    decreases |rows|
  {
    hide ApplyAll;
    if rows != [] {
      var n := |rows| - 1;
      var fixed := Repaired(us, rows);
      assert fixed[..n] == Repaired(us, rows[..n]);
      assert rows == rows[..n] + [rows[n]] && fixed == fixed[..n] + [fixed[n]];
      HasRowAppend(rows[..n], [rows[n]], name);
      HasRowAppend(fixed[..n], [fixed[n]], name);
      ApplyAllName(us, rows[n]);
      RecordedRepaired(us, rows[..n], name);
      assert HasRow([rows[n]], name) <==> [rows[n]][0].name == name;
      assert HasRow([fixed[n]], name) <==> [fixed[n]][0].name == name;
    }
  }

  /** What the runner reads for a file after the repair. */
  lemma {:induction false} RecordedAfterRepair(hash: string -> string, dir: seq<File>, rows: seq<Row>, k: nat)
    requires DistinctNames(dir) && k < |dir|
    ensures var fixed := Repaired(RepairRows(hash, dir), rows);
            Recorded(fixed, dir[k].name) ==
            if HasRow(rows, dir[k].name) then MigrationChecksum(hash, dir[k].raw) else ""
  {
    hide MigrationChecksum;
    RecordedRepaired(RepairRows(hash, dir), rows, dir[k].name);
    ApplyAllChecksum(hash, dir, Row(dir[k].name, Recorded(rows, dir[k].name)));
  }

  /**
   * The repair keeps every ledger name, in place; afterwards no file drifts, so no run
   * over these files can stop on a checksum; and a second repair rewrites no row.
   */
  lemma {:induction false} RepairIsSafeAndSufficient(hash: string -> string, dir: seq<File>, rows: seq<Row>)
    requires DistinctNames(dir)
    ensures var us := RepairRows(hash, dir);
            var fixed := Repaired(us, rows);
            && (forall x :: 0 <= x < |rows| ==> fixed[x].name == rows[x].name)
            && (forall x :: 0 <= x < |rows| && rows[x].name !in NamesOfFiles(dir) ==> fixed[x] == rows[x])
            && (forall f :: f in dir ==> !Drifts(hash, fixed, f))
            && Repaired(us, fixed) == fixed
  {
    hide MigrationChecksum, Recorded;
    var us := RepairRows(hash, dir);
    var fixed := Repaired(us, rows);
    forall x | 0 <= x < |rows|
      ensures fixed[x].name == rows[x].name
      ensures rows[x].name !in NamesOfFiles(dir) ==> fixed[x] == rows[x]
      ensures ApplyAll(us, fixed[x]) == fixed[x]
    {
      ApplyAllChecksum(hash, dir, rows[x]);
      ApplyAllChecksum(hash, dir, fixed[x]);
      if rows[x].name in NamesOfFiles(dir) {
        var k :| 0 <= k < |dir| && NamesOfFiles(dir)[k] == rows[x].name;
        assert dir[k].name == rows[x].name;
      }
    }
    forall f | f in dir
      ensures !Drifts(hash, fixed, f)
    {
      var k :| 0 <= k < |dir| && dir[k] == f;
      RecordedAfterRepair(hash, dir, rows, k);
    }
  }

  /** Some row of a file records the empty string, which the runner reads as "not applied". */
  ghost predicate EmptyRecord(dir: seq<File>, rows: seq<Row>, k: nat) {
    k < |dir| && HasRow(rows, dir[k].name) && Recorded(rows, dir[k].name) == ""
  }

  /**
   * The repair leaves the next run's pending list alone exactly when no file has an
   * empty recorded checksum; such a file was pending before and is skipped afterwards.
   */
  lemma {:induction false} RepairKeepsPendingIff(hash: string -> string, dir: seq<File>, rows: seq<Row>)
    requires NeverEmpty(hash) && DistinctNames(dir)
    ensures PendingFiles(dir, Repaired(RepairRows(hash, dir), rows)) == PendingFiles(dir, rows)
       <==> forall k: nat :: !EmptyRecord(dir, rows, k)
  {
    hide MigrationChecksum, Recorded;
    var fixed := Repaired(RepairRows(hash, dir), rows);
    forall k: nat | k < |dir|
      ensures (Recorded(fixed, dir[k].name) == "") == (Recorded(rows, dir[k].name) == "")
              <==> !EmptyRecord(dir, rows, k)
    {
      RecordedAfterRepair(hash, dir, rows, k);
      RecordedRepaired(RepairRows(hash, dir), rows, dir[k].name);
      ChecksumNonEmpty(hash, dir[k].raw);
    }
    PendingAgreeIff(dir, rows, fixed);
  }

  /** Two ledgers give the same pending list exactly when they agree on which files are recorded. */
  lemma {:induction false} PendingAgreeIff(dir: seq<File>, rows: seq<Row>, rows': seq<Row>)
    requires DistinctNames(dir)
    ensures PendingFiles(dir, rows') == PendingFiles(dir, rows)
       <==> forall k: nat :: k < |dir| ==> (Recorded(rows', dir[k].name) == "") == (Recorded(rows, dir[k].name) == "")
  {
    hide Recorded;
    if PendingFiles(dir, rows') == PendingFiles(dir, rows) {
      PendingAreDistinct(dir, rows);
      PendingAreDistinct(dir, rows');
      forall k: nat | k < |dir|
        ensures (Recorded(rows', dir[k].name) == "") == (Recorded(rows, dir[k].name) == "")
      {
        assert dir[k] in dir;
      }
    }
    if forall k: nat :: k < |dir| ==> (Recorded(rows', dir[k].name) == "") == (Recorded(rows, dir[k].name) == "") {
      SamePending(dir, rows, rows');
    }
  }

  lemma {:induction false} SamePending(dir: seq<File>, rows: seq<Row>, rows': seq<Row>)
    requires forall k: nat :: k < |dir| ==> (Recorded(rows', dir[k].name) == "") == (Recorded(rows, dir[k].name) == "")
    ensures PendingFiles(dir, rows') == PendingFiles(dir, rows)
    decreases |dir|
  {
    hide Recorded;
    if dir != [] {
      SamePending(dir[..|dir| - 1], rows, rows');
    }
  }
}
