/** Deciding which migrations a captured baseline already reflects, and marking them as applied. */
module Bootstrap {
  import opened Text
  import opened Stripper
  import opened Checksum
  import opened Database
  import opened Runner
  import opened RunLaws

  // ----- proofs of removal

  /** What `^\s*--\s*MARKER\s+(.+)$` captures from a line, trimmed; nothing when it is blank. */
  function MarkerValue(line: string, marker: string): (v: Option<string>) {
    var a := SkipSpace(line, 0);
    if !HasAt(line, a, "--") then None else
      var b := SkipSpace(line, a + 2);
      if !HasAt(line, b, marker) then None else
        var c := SkipSpace(line, b + |marker|);
        if c == b + |marker| || c == |line| || (exists x :: c <= x < |line| && EndsLine(line[x])) then None
        else Some(Trim(line[c..]))
  }

  function MarkerValues(lines: seq<string>, marker: string): (vs: seq<string>) {
    if lines == [] then []
    else (match MarkerValue(lines[0], marker) case Some(v) => [v] case None => []) + MarkerValues(lines[1..], marker)
  }

  const REMOVES_MARKER: string := "SERVANA:REMOVES"
  const ANCHOR_MARKER: string := "SERVANA:ANCHOR"

  /** The regular-expression engine that the declared patterns are given to. */
  datatype Engine = Engine(parses: string -> bool, matches: (string, string) -> bool)

  /** One reason for each absent anchor and for each pattern that does not parse or still matches. */
  method ProvesRemoval(e: Engine, sql: string, baseline: string) returns (proven: bool, reasons: seq<string>)
    ensures proven <==> Proven(e, sql, baseline)
    ensures proven <==> reasons == []
  {
    var patterns := MarkerValues(Split(sql, '\n'), REMOVES_MARKER);
    var anchors := MarkerValues(Split(sql, '\n'), ANCHOR_MARKER);
    reasons := [];
    if patterns == [] {
      return false, ["no removal declared"];
    }
    if anchors == [] {
      return false, ["removal declared without an anchor"];
    }
    reasons := MissingAnchors(baseline, anchors);
    var k := 0;
    while k < |patterns|
      invariant 0 <= k <= |patterns|
      invariant reasons == [] <==>
        && (forall x :: 0 <= x < |anchors| ==> Includes(baseline, anchors[x]))
        && (forall x :: 0 <= x < k ==> Gone(e, patterns[x], baseline))
    {
      if !Gone(e, patterns[k], baseline) {
        reasons := reasons + [patterns[k]];
      }
      k := k + 1;
    }
    proven := reasons == [];
  }

  method MissingAnchors(baseline: string, anchors: seq<string>) returns (reasons: seq<string>)
    ensures reasons == [] <==> forall x :: 0 <= x < |anchors| ==> Includes(baseline, anchors[x])
  {
    reasons := [];
    var k := 0;
    while k < |anchors|
      invariant 0 <= k <= |anchors|
      invariant reasons == [] <==> forall x :: 0 <= x < k ==> Includes(baseline, anchors[x])
    {
      if !Includes(baseline, anchors[k]) {
        reasons := reasons + [anchors[k]];
      }
      k := k + 1;
    }
  }

  /** The pattern parses, and nothing in the baseline matches it. */
  predicate Gone(e: Engine, pattern: string, baseline: string) {
    e.parses(pattern) && !e.matches(pattern, baseline)
  }

  /** At least one removal and one anchor are declared, every anchor is in the baseline, and no pattern is. */
  predicate Proven(e: Engine, sql: string, baseline: string) {
    var patterns := MarkerValues(Split(sql, '\n'), REMOVES_MARKER);
    var anchors := MarkerValues(Split(sql, '\n'), ANCHOR_MARKER);
    && patterns != [] && anchors != []
    && (forall x :: 0 <= x < |anchors| ==> Includes(baseline, anchors[x]))
    && (forall x :: 0 <= x < |patterns| ==> Gone(e, patterns[x], baseline))
  }

  // ----- renames

  /** `name` after following `n` renames, as far as they go. */
  function Follow(renames: map<string, string>, name: string, n: nat): (r: string)
    decreases n
  {
    if n == 0 || name !in renames then name else Follow(renames, renames[name], n - 1)
  }

  lemma {:induction false} FollowAdds(renames: map<string, string>, name: string, n: nat, m: nat)
    ensures Follow(renames, Follow(renames, name, n), m) == Follow(renames, name, n + m)
    decreases n
  {
    if n > 0 && name in renames {
      FollowAdds(renames, renames[name], n - 1, m);
    } else if name !in renames {
      assert Follow(renames, name, m) == name;
    }
  }

  /** `to` is reached from `name` by at least one rename. */
  ghost predicate LeadsTo(renames: map<string, string>, name: string, to: string) {
    name in renames && exists n: nat :: n > 0 && Follow(renames, name, n) == to
  }

  lemma {:induction false} LeadsOn(renames: map<string, string>, x: string, y: string)
    requires y in renames && (x == y || LeadsTo(renames, x, y))
    ensures LeadsTo(renames, x, renames[y])
  {
    if x == y {
      assert Follow(renames, x, 1) == renames[y];
    } else {
      var n: nat :| n > 0 && Follow(renames, x, n) == y;
      FollowAdds(renames, x, n, 1);
      assert Follow(renames, x, n + 1) == renames[y];
    }
  }

  /** The name at which the renames from `name` end, or the first one that comes up again. */
  function CurrentOf(renames: map<string, string>, name: string, seen: set<string>): (out: string)
    decreases renames.Keys - seen
  {
    if name in renames && name !in seen then CurrentOf(renames, renames[name], seen + {name}) else name
  }

  /**
   * Following the renames always ends. It ends at a name that no migration renames,
   * unless the chain runs into a cycle, and then at a name on that cycle.
   */
  method CurrentName(renames: map<string, string>, name: string) returns (out: string)
    ensures out == CurrentOf(renames, name, {})
    ensures exists n: nat :: out == Follow(renames, name, n)
    ensures out !in renames || LeadsTo(renames, out, out)
  {
    out := name;
    var seen: set<string> := {};
    ghost var n: nat := 0;
    while out in renames && out !in seen
      invariant CurrentOf(renames, out, seen) == CurrentOf(renames, name, {})
      invariant out == Follow(renames, name, n)
      invariant seen <= renames.Keys
      invariant forall x :: x in seen ==> LeadsTo(renames, x, out)
      decreases renames.Keys - seen
    {
      FollowAdds(renames, name, n, 1);
      forall x | x in seen + {out}
        ensures LeadsTo(renames, x, renames[out])
      {
        LeadsOn(renames, x, out);
      }
      seen := seen + {out};
      out := renames[out];
      n := n + 1;
    }
  }

  /** On an acyclic rename map the un-renamed name at the end of the chain is the only one the chain contains. */
  lemma {:induction false} CurrentNameIsUnique(renames: map<string, string>, name: string, n: nat, m: nat)
    requires Follow(renames, name, n) !in renames && Follow(renames, name, m) !in renames
    ensures Follow(renames, name, n) == Follow(renames, name, m)
  {
    FollowAdds(renames, name, n, m);
    FollowAdds(renames, name, m, n);
  }

  lemma {:induction false} EndStays(renames: map<string, string>, name: string, n: nat, m: nat)
    requires n <= m && Follow(renames, name, n) !in renames
    ensures Follow(renames, name, m) == Follow(renames, name, n)
  {
    FollowAdds(renames, name, n, m - n);
  }

  lemma {:induction false} CycleStays(renames: map<string, string>, name: string, p: nat, j: nat)
    requires Follow(renames, name, p) == name
    ensures Follow(renames, name, j * p) == name
    decreases j
  {
    if j > 0 {
      CycleStays(renames, name, p, j - 1);
      FollowAdds(renames, name, p, (j - 1) * p);
      assert p + (j - 1) * p == j * p;
    }
  }

  lemma {:induction false} CurrentIsFollowed(renames: map<string, string>, name: string, seen: set<string>)
    requires forall x :: x in seen ==> LeadsTo(renames, x, name)
    ensures exists n: nat :: CurrentOf(renames, name, seen) == Follow(renames, name, n)
    ensures var out := CurrentOf(renames, name, seen); out !in renames || LeadsTo(renames, out, out)
    decreases renames.Keys - seen
  {
    hide LeadsTo;
    if name in renames && name !in seen {
      forall x | x in seen + {name}
        ensures LeadsTo(renames, x, renames[name])
      {
        LeadsOn(renames, x, name);
      }
      CurrentIsFollowed(renames, renames[name], seen + {name});
      var n: nat :| CurrentOf(renames, name, seen) == Follow(renames, renames[name], n);
      assert Follow(renames, name, n + 1) == CurrentOf(renames, name, seen);
    } else {
      assert Follow(renames, name, 0) == name;
    }
  }

  /** If the chain of a name ends at all, the current name is its end. */
  lemma {:induction false} CurrentIsTheEnd(renames: map<string, string>, name: string, m: nat)
    requires Follow(renames, name, m) !in renames
    ensures CurrentOf(renames, name, {}) == Follow(renames, name, m)
  {
    var out := CurrentOf(renames, name, {});
    CurrentIsFollowed(renames, name, {});
    var n: nat :| out == Follow(renames, name, n);
    if out in renames {
      var p: nat :| p > 0 && Follow(renames, out, p) == out;
      CycleStays(renames, out, p, m);
      FollowAdds(renames, name, n, m * p);
      AtLeast(m, p);
      EndStays(renames, name, m, n + m * p);
      assert false;
    }
    CurrentNameIsUnique(renames, name, n, m);
  }

  lemma {:induction false} AtLeast(m: nat, p: nat)
    requires p > 0
    ensures m <= m * p
  {
  }

  // ----- verdicts

  datatype Verdict = Present | Absent | NoSchemaEffect

  /** The tables of the baseline catalog, with their columns. */
  type Catalog = map<string, set<string>>

  datatype Effect = Table(table: string) | Column(table: string, column: string)

  /** `has`: the table as it is called in the file, or as it is called today. */
  predicate Has(catalog: Catalog, renames: map<string, string>, e: Effect) {
    var t := if e.table in catalog then e.table else CurrentOf(renames, e.table, {});
    t in catalog && (e.Column? ==> e.column in catalog[t])
  }

  /** A table counts as present exactly when the catalog has it, or has the name at the end of its renames. */
  lemma {:induction false} HasFollowsRenames(catalog: Catalog, renames: map<string, string>, table: string, n: nat)
    requires Follow(renames, table, n) !in renames
    ensures Has(catalog, renames, Table(table)) <==> table in catalog || Follow(renames, table, n) in catalog
  {
    CurrentIsTheEnd(renames, table, n);
  }

  /** What is known: the captured baseline, the renames, and the effects that are read from a file's statements. */
  datatype Evidence = Evidence(engine: Engine, baseline: string, catalog: Catalog, renames: map<string, string>,
                               effects: string -> seq<Effect>)

  function VerdictOf(ev: Evidence, f: File): (v: Verdict) {
    if DeclaresDestructive(f.raw) then
      if Proven(ev.engine, f.raw, ev.baseline) then Present else Absent
    else if ev.effects(f.raw) == [] then NoSchemaEffect
    else if forall x :: 0 <= x < |ev.effects(f.raw)| ==> Has(ev.catalog, ev.renames, ev.effects(f.raw)[x]) then Present
    else Absent
  }

  /** The files with the given answer to "is it absent", in directory order. */
  function Select(ev: Evidence, dir: seq<File>, absent: bool): (fs: seq<File>) {
    if dir == [] then []
    else Select(ev, dir[..|dir| - 1], absent) +
         (if (VerdictOf(ev, dir[|dir| - 1]) == Absent) == absent then [dir[|dir| - 1]] else [])
  }

  // ----- the mark

  /** `INSERT ... ON CONFLICT (migration_name) DO NOTHING`, row by row. */
  function InsertMissing(rows: seq<Row>, more: seq<Row>): (r: seq<Row>) {
    if more == [] then rows
    else
      var before := InsertMissing(rows, more[..|more| - 1]);
      if HasRow(before, more[|more| - 1].name) then before else before + [more[|more| - 1]]
  }

  function Mark(hash: string -> string, ev: Evidence, dir: seq<File>, rows: seq<Row>): (r: seq<Row>) {
    InsertMissing(rows, FileRows(hash, Select(ev, dir, false)))
  }

  lemma {:induction false} SelectFacts(ev: Evidence, dir: seq<File>, absent: bool)
    requires DistinctNames(dir)
    ensures DistinctNames(Select(ev, dir, absent))
    ensures forall f :: f in Select(ev, dir, absent) <==> f in dir && (VerdictOf(ev, f) == Absent) == absent
    decreases |dir|
  {
    hide VerdictOf;
    if dir != [] {
      var n := |dir| - 1;
      SelectFacts(ev, dir[..n], absent);
      assert dir == dir[..n] + [dir[n]];
      assert forall f :: f in dir[..n] ==> f.name != dir[n].name;
    }
  }

  lemma {:induction false} InsertIntoEmpty(more: seq<Row>)
    requires forall i, j :: 0 <= i < j < |more| ==> more[i].name != more[j].name
    ensures InsertMissing([], more) == more
    decreases |more|
  {
    if more != [] {
      var n := |more| - 1;
      InsertIntoEmpty(more[..n]);
      assert more == more[..n] + [more[n]];
    }
  }

  /** Rows that are there stay as they are; what is added had no row of its name, and every name has one then. */
  lemma {:induction false} InsertKeeps(rows: seq<Row>, more: seq<Row>)
    ensures rows <= InsertMissing(rows, more)
    ensures forall r :: r in InsertMissing(rows, more)[|rows|..] ==> r in more && !HasRow(rows, r.name)
    ensures forall r :: r in more ==> HasRow(InsertMissing(rows, more), r.name)
    decreases |more|
  {
    if more != [] {
      var n := |more| - 1;
      InsertKeeps(rows, more[..n]);
      var before, last := InsertMissing(rows, more[..n]), more[n];
      assert more == more[..n] + [last];
      forall name
        ensures HasRow(before + [last], name) <==> HasRow(before, name) || last.name == name
      {
        HasRowAppend(before, [last], name);
        assert HasRow([last], name) <==> [last][0].name == name;
      }
      if k :| 0 <= k < |rows| && rows[k].name == last.name {
        assert before[k] == rows[k];
      }
      if !HasRow(before, last.name) {
        assert (before + [last])[|rows|..] == before[|rows|..] + [last];
      }
    }
  }

  lemma {:induction false} InsertPresent(rows: seq<Row>, more: seq<Row>)
    requires forall r :: r in more ==> HasRow(rows, r.name)
    ensures InsertMissing(rows, more) == rows
    decreases |more|
  {
    if more != [] {
      var n := |more| - 1;
      assert more[n] in more;
      InsertPresent(rows, more[..n]);
    }
  }

  lemma {:induction false} MarkEmpty(hash: string -> string, ev: Evidence, dir: seq<File>)
    requires DistinctNames(dir)
    ensures Mark(hash, ev, dir, []) == FileRows(hash, Select(ev, dir, false))
  {
    hide VerdictOf, MigrationChecksum;
    SelectFacts(ev, dir, false);
    InsertIntoEmpty(FileRows(hash, Select(ev, dir, false)));
  }

  lemma {:induction false} PendingAfterMark(hash: string -> string, ev: Evidence, dir: seq<File>, rows: seq<Row>,
                                            d: nat)
    requires d <= |dir|
    requires forall k :: 0 <= k < |dir| ==> (Recorded(rows, dir[k].name) == "" <==> VerdictOf(ev, dir[k]) == Absent)
    ensures PendingFiles(dir[..d], rows) == Select(ev, dir[..d], true)
    decreases d
  {
    hide VerdictOf, Recorded;
    if d > 0 {
      PendingAfterMark(hash, ev, dir, rows, d - 1);
      assert dir[..d][..d - 1] == dir[..d - 1];
    }
  }

  lemma {:induction false} RecordedAfterMark(hash: string -> string, ev: Evidence, dir: seq<File>, k: nat)
    requires NeverEmpty(hash) && DistinctNames(dir) && k < |dir|
    ensures Recorded(Mark(hash, ev, dir, []), dir[k].name)
         == if VerdictOf(ev, dir[k]) == Absent then "" else MigrationChecksum(hash, dir[k].raw)
    ensures MigrationChecksum(hash, dir[k].raw) != ""
  {
    hide VerdictOf, Recorded, MigrationChecksum, Mark, FileRows;
    var fs := Select(ev, dir, false);
    MarkEmpty(hash, ev, dir);
    SelectFacts(ev, dir, false);
    ChecksumNonEmpty(hash, dir[k].raw);
    RecordedAfter(hash, [], fs, dir[k]);
    RecordedNothing(dir[k].name);
    assert [] + FileRows(hash, fs) == FileRows(hash, fs);
    if VerdictOf(ev, dir[k]) == Absent && dir[k].name in NamesOfFiles(fs) {
      var x :| 0 <= x < |fs| && NamesOfFiles(fs)[x] == dir[k].name;
      SameNameSameFile(dir, fs[x], k);
    }
  }

  lemma {:induction false} SameNameSameFile(dir: seq<File>, f: File, k: nat)
    requires DistinctNames(dir) && f in dir && k < |dir| && f.name == dir[k].name
    ensures f == dir[k]
  {
    var x :| 0 <= x < |dir| && dir[x] == f;
  }

  /**
   * The baseline mark partitions history. From an empty ledger, the runner then finds
   * pending exactly the files whose effects the baseline lacks, in order; nothing
   * drifts; a destructive file is marked only with a proven removal; and marking
   * again, or marking with the same evidence later, changes nothing.
   */
  lemma {:induction false} MarkPartitionsHistory(hash: string -> string, ev: Evidence, dir: seq<File>)
    requires NeverEmpty(hash) && DistinctNames(dir)
    ensures var rows := Mark(hash, ev, dir, []);
            && PendingFiles(dir, rows) == Select(ev, dir, true)
            && (forall f :: f in dir ==> !Drifts(hash, rows, f))
            && (forall f ::
                  f in dir && HasRow(rows, f.name) && DeclaresDestructive(f.raw)
                  ==> Proven(ev.engine, f.raw, ev.baseline))
            && Mark(hash, ev, dir, rows) == rows
  {
    hide VerdictOf, Recorded, MigrationChecksum, Mark;
    var rows := Mark(hash, ev, dir, []);
    forall k | 0 <= k < |dir|
      ensures Recorded(rows, dir[k].name) == "" <==> VerdictOf(ev, dir[k]) == Absent
      ensures !Drifts(hash, rows, dir[k])
      ensures HasRow(rows, dir[k].name) ==> VerdictOf(ev, dir[k]) != Absent
    {
      RecordedAfterMark(hash, ev, dir, k);
      MarkedIsReflected(hash, ev, dir, k);
    }
    PendingAfterMark(hash, ev, dir, rows, |dir|);
    assert dir[..|dir|] == dir;
    forall f | f in dir && HasRow(rows, f.name) && DeclaresDestructive(f.raw)
      ensures Proven(ev.engine, f.raw, ev.baseline)
    {
      var k :| 0 <= k < |dir| && dir[k] == f;
      DestructiveVerdict(ev, f);
    }
    MarkTwice(hash, ev, dir);
  }

  lemma {:induction false} DestructiveVerdict(ev: Evidence, f: File)
    requires DeclaresDestructive(f.raw)
    ensures VerdictOf(ev, f) == if Proven(ev.engine, f.raw, ev.baseline) then Present else Absent
  {
  }

  lemma {:induction false} MarkedIsReflected(hash: string -> string, ev: Evidence, dir: seq<File>, k: nat)
    requires NeverEmpty(hash) && DistinctNames(dir) && k < |dir|
    ensures HasRow(Mark(hash, ev, dir, []), dir[k].name) ==> VerdictOf(ev, dir[k]) != Absent
  {
    hide VerdictOf, MigrationChecksum, Mark;
    var fs := Select(ev, dir, false);
    MarkEmpty(hash, ev, dir);
    SelectFacts(ev, dir, false);
    if HasRow(FileRows(hash, fs), dir[k].name) {
      var x :| 0 <= x < |fs| && FileRows(hash, fs)[x].name == dir[k].name;
      SameNameSameFile(dir, fs[x], k);
    }
  }

  lemma {:induction false} MarkTwice(hash: string -> string, ev: Evidence, dir: seq<File>)
    requires DistinctNames(dir)
    ensures Mark(hash, ev, dir, Mark(hash, ev, dir, [])) == Mark(hash, ev, dir, [])
  {
    hide VerdictOf, MigrationChecksum;
    var rows := FileRows(hash, Select(ev, dir, false));
    MarkEmpty(hash, ev, dir);
    InsertPresent(rows, rows);
  }
}
