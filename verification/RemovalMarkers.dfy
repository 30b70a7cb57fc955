/** Removal and anchor declarations as they are written in a file, and what the baseline mark makes of them. */
module RemovalMarkers {
  import opened Text
  import opened Characters
  import opened Stripper
  import opened Checksum
  import opened Database
  import opened Runner
  import opened RunLaws
  import opened Bootstrap
  import opened Acknowledged

  // ----- a declaring line

  /** White space, `--`, white space, the marker, white space, the value, white space. */
  datatype Parts = Parts(lead: string, inner: string, gap: string, value: string, trail: string)

  function LineOf(p: Parts, marker: string): (line: string) {
    p.lead + "--" + p.inner + marker + p.gap + (p.value + p.trail)
  }

  /** The value has no line terminator in it or behind it. */
  ghost predicate AreParts(p: Parts) {
    && White(p.lead) && White(p.inner) && White(p.gap) && p.gap != "" && White(p.trail) && Trimmed(p.value)
    && forall x :: 0 <= x < |p.value + p.trail| ==>
         (p.value + p.trail)[x] !in {'\n', '\r', '\U{2028}', '\U{2029}'}
  }

  ghost predicate Declares(line: string, marker: string, value: string) {
    exists p :: AreParts(p) && p.value == value && line == LineOf(p, marker)
  }

  lemma {:induction false} PartsAt(p: Parts, marker: string)
    ensures var line, a := LineOf(p, marker), |p.lead|;
            var b := a + 2 + |p.inner|;
            var c := b + |marker| + |p.gap|;
            && |line| == c + |p.value + p.trail|
            && line[..a] == p.lead && HasAt(line, a, "--") && line[a + 2..b] == p.inner && HasAt(line, b, marker)
            && line[b + |marker|..c] == p.gap && line[c..] == p.value + p.trail
  {
    var line, a := LineOf(p, marker), |p.lead|;
    var b := a + 2 + |p.inner|;
    var c := b + |marker| + |p.gap|;
    assert line[c..] == p.value + p.trail;
    var l1 := p.lead + "--" + p.inner + marker;
    assert line == l1 + p.gap + (p.value + p.trail) && |l1| == b + |marker|;
    assert line[b + |marker|..c] == p.gap;
    var l2 := p.lead + "--" + p.inner;
    assert line == l2 + marker + (p.gap + (p.value + p.trail)) && |l2| == b;
    assert line[b..b + |marker|] == marker;
    assert line[..b] == l2;
    assert l2[a + 2..b] == p.inner && line[a + 2..b] == l2[a + 2..b];
    assert l2[a..a + 2] == "--" && line[a..a + 2] == l2[a..a + 2];
  }

  lemma {:induction false} WhiteSlice(s: string, a: nat, b: nat)
    requires a <= b <= |s| && White(s[a..b])
    ensures forall x :: a <= x < b ==> IsWhite(s[x])
  {
    assert forall x :: a <= x < b ==> s[a..b][x - a] == s[x];
  }

  lemma {:induction false} FirstAt(s: string, i: nat, w: string)
    requires w != "" && HasAt(s, i, w)
    ensures i < |s| && s[i] == w[0]
  {
    assert s[i] == s[i..i + |w|][0];
  }

  /** Where the three stretches of white space of a declaring line end. */
  lemma {:induction false} PartsEnd(p: Parts, marker: string)
    requires AreParts(p) && marker != "" && !IsWhite(marker[0])
    ensures var line, a := LineOf(p, marker), |p.lead|;
            var b := a + 2 + |p.inner|;
            var c := b + |marker| + |p.gap|;
            && c < |line| && SkipSpace(line, 0) == a && SkipSpace(line, a + 2) == b
            && SkipSpace(line, b + |marker|) == c
  {
    hide LineOf, SkipSpace, Trimmed, HasAt;
    var line, a := LineOf(p, marker), |p.lead|;
    var b := a + 2 + |p.inner|;
    var c := b + |marker| + |p.gap|;
    PartsAt(p, marker);
    TrimmedFirst(p.value);
    FirstAt(line, a, "--");
    FirstAt(line, b, marker);
    assert line[c] == line[c..][0] == p.value[0];
    assert line[0..a] == line[..a];
    WhiteSlice(line, 0, a);
    SkipWhite(line, 0, a);
    WhiteSlice(line, a + 2, b);
    SkipWhite(line, a + 2, b);
    WhiteSlice(line, b + |marker|, c);
    SkipWhite(line, b + |marker|, c);
  }

  lemma {:induction false} TrimmedFirst(s: string)
    requires Trimmed(s)
    ensures s != "" && !IsWhite(s[0])
  {
  }

  /** A declaring line declares its value. */
  lemma {:induction false} DeclaredIsRead(p: Parts, marker: string)
    requires AreParts(p) && marker != "" && !IsWhite(marker[0])
    ensures MarkerValue(LineOf(p, marker), marker) == Some(p.value)
  {
    hide LineOf, Trim, SkipSpace, White, Trimmed;
    var line, a := LineOf(p, marker), |p.lead|;
    var b := a + 2 + |p.inner|;
    var c := b + |marker| + |p.gap|;
    PartsAt(p, marker);
    PartsEnd(p, marker);
    forall x | c <= x < |line|
      ensures !EndsLine(line[x])
    {
      assert line[x] == line[c..][x - c];
    }
    WhiteNothing();
    TrimIs("", p.value, p.trail);
    assert "" + p.value + p.trail == p.value + p.trail;
  }

  lemma {:induction false} WhiteNothing()
    ensures White("")
  {
  }

  lemma {:induction false} ReadAt(line: string, marker: string, value: string) returns (a: nat, b: nat, c: nat)
    requires MarkerValue(line, marker) == Some(value)
    ensures a + 2 <= b && b + |marker| < c < |line| && HasAt(line, a, "--") && HasAt(line, b, marker)
    ensures White(line[0..a]) && White(line[a + 2..b]) && White(line[b + |marker|..c]) && !IsWhite(line[c])
    ensures value == Trim(line[c..])
    ensures forall x :: c <= x < |line| ==> line[x] !in {'\n', '\r', '\U{2028}', '\U{2029}'}
  {
    hide Trim, SkipSpace;
    a := SkipSpace(line, 0);
    b := SkipSpace(line, a + 2);
    c := SkipSpace(line, b + |marker|);
    SkippedIsWhite(line, 0);
    SkippedIsWhite(line, a + 2);
    SkippedIsWhite(line, b + |marker|);
    assert forall x :: c <= x < |line| ==> !EndsLine(line[x]);
  }

  /** What is read from a line is declared by it. */
  lemma {:induction false} ReadIsDeclared(line: string, marker: string, value: string)
    requires MarkerValue(line, marker) == Some(value)
    ensures Declares(line, marker, value)
  {
    hide Trim, MarkerValue, White;
    var a, b, c := ReadAt(line, marker, value);
    var rest := line[c..];
    assert rest[0] == line[c];
    TrimsAtEnd(rest);
    var p := Parts(line[0..a], line[a + 2..b], line[b + |marker|..c], value, rest[|value|..]);
    assert p.value + p.trail == rest;
    assert forall x :: 0 <= x < |rest| ==> rest[x] == line[c + x];
    assert AreParts(p);
    Rejoined(line, marker, a, b, c);
    assert line == LineOf(p, marker);
  }

  lemma {:induction false} Rejoined(line: string, marker: string, a: nat, b: nat, c: nat)
    requires a + 2 <= b && b + |marker| <= c <= |line| && HasAt(line, a, "--") && HasAt(line, b, marker)
    ensures line == line[0..a] + "--" + line[a + 2..b] + marker + line[b + |marker|..c] + line[c..]
  {
    assert line[..b] == line[0..a] + "--" + line[a + 2..b];
    assert line[..c] == line[..b] + marker + line[b + |marker|..c];
  }

  /** So a line is read as a declaration of exactly what is written in it. */
  lemma {:induction false} MarkerValueIff(line: string, marker: string, value: string)
    requires marker != "" && !IsWhite(marker[0])
    ensures MarkerValue(line, marker) == Some(value) <==> Declares(line, marker, value)
  {
    hide MarkerValue, LineOf, AreParts;
    if MarkerValue(line, marker) == Some(value) {
      ReadIsDeclared(line, marker, value);
    }
    if p :| AreParts(p) && p.value == value && line == LineOf(p, marker) {
      DeclaredIsRead(p, marker);
    }
  }

  // ----- a file

  ghost predicate DeclaredIn(lines: seq<string>, marker: string, value: string) {
    exists k :: 0 <= k < |lines| && Declares(lines[k], marker, value)
  }

  lemma {:induction false} ValuesAreDeclared(lines: seq<string>, marker: string, value: string)
    requires marker != "" && !IsWhite(marker[0])
    ensures value in MarkerValues(lines, marker) <==> DeclaredIn(lines, marker, value)
    decreases |lines|
  {
    hide MarkerValue, Declares;
    if lines != [] {
      ValuesAreDeclared(lines[1..], marker, value);
      MarkerValueIff(lines[0], marker, value);
      assert lines == [lines[0]] + lines[1..];
      if k :| 0 <= k < |lines[1..]| && Declares(lines[1..][k], marker, value) {
        assert Declares(lines[k + 1], marker, value);
      }
      if k :| 0 <= k < |lines| && Declares(lines[k], marker, value) {
        assert k > 0 ==> lines[1..][k - 1] == lines[k];
      }
    }
  }

  /** `w` occurs in `s`. */
  ghost predicate Occurs(s: string, w: string) {
    exists j: nat :: HasAt(s, j, w)
  }

  lemma {:induction false} IncludesIsOccurs(s: string, w: string)
    ensures Includes(s, w) <==> Occurs(s, w)
  {
    if j: nat :| HasAt(s, j, w) {
      assert j <= |s| && HasAt(s, j, w);
    }
  }

  /**
   * A removal and an anchor are declared, every declared anchor occurs in the baseline, and
   * every declared pattern parses and matches nothing there.
   */
  ghost predicate Satisfied(e: Engine, lines: seq<string>, baseline: string) {
    && (exists p :: DeclaredIn(lines, "SERVANA:REMOVES", p))
    && (exists v :: DeclaredIn(lines, "SERVANA:ANCHOR", v))
    && (forall v :: DeclaredIn(lines, "SERVANA:ANCHOR", v) ==> Occurs(baseline, v))
    && (forall p :: DeclaredIn(lines, "SERVANA:REMOVES", p) ==> e.parses(p) && !e.matches(p, baseline))
  }

  ghost predicate AreLines(lines: seq<string>) {
    lines != [] && forall k :: 0 <= k < |lines| ==> '\n' !in lines[k]
  }

  /** A file proves its removal if and only if what its lines declare is satisfied. */
  lemma {:induction false} ProvenIff(e: Engine, lines: seq<string>, baseline: string)
    requires AreLines(lines)
    ensures Proven(e, Join(lines, '\n'), baseline) <==> Satisfied(e, lines, baseline)
  {
    hide MarkerValues, DeclaredIn, Includes, Occurs, Split, Join;
    SplitInvertsJoin(lines, '\n');
    var patterns, anchors := MarkerValues(lines, REMOVES_MARKER), MarkerValues(lines, ANCHOR_MARKER);
    assert REMOVES_MARKER[0] == 'S' && ANCHOR_MARKER[0] == 'S';
    forall v
      ensures v in patterns <==> DeclaredIn(lines, "SERVANA:REMOVES", v)
      ensures v in anchors <==> DeclaredIn(lines, "SERVANA:ANCHOR", v)
      ensures Includes(baseline, v) <==> Occurs(baseline, v)
    {
      ValuesAreDeclared(lines, REMOVES_MARKER, v);
      ValuesAreDeclared(lines, ANCHOR_MARKER, v);
      IncludesIsOccurs(baseline, v);
    }
    assert patterns != [] ==> patterns[0] in patterns;
    assert anchors != [] ==> anchors[0] in anchors;
    assert (forall x :: 0 <= x < |anchors| ==> Includes(baseline, anchors[x]))
      <==> forall v :: v in anchors ==> Includes(baseline, v);
    assert (forall x :: 0 <= x < |patterns| ==> Gone(e, patterns[x], baseline))
      <==> forall v :: v in patterns ==> Gone(e, v, baseline);
  }

  // ----- the mark

  /** Every effect of the file is in the catalog: the table, under its name or its current one, and the column. */
  ghost predicate AllThere(ev: Evidence, f: File) {
    forall x :: 0 <= x < |ev.effects(f.raw)| ==> Has(ev.catalog, ev.renames, ev.effects(f.raw)[x])
  }

  ghost predicate Destructive(f: File) {
    Occurs(f.raw, "SERVANA:DESTRUCTIVE")
  }

  lemma {:induction false} AbsentIff(ev: Evidence, f: File, lines: seq<string>)
    requires AreLines(lines) && f.raw == Join(lines, '\n')
    ensures VerdictOf(ev, f) == Absent
       <==> if Destructive(f) then !Satisfied(ev.engine, lines, ev.baseline) else !AllThere(ev, f)
  {
    hide Satisfied, Proven, Has, Join, Includes;
    ProvenIff(ev.engine, lines, ev.baseline);
    IncludesIsOccurs(f.raw, "SERVANA:DESTRUCTIVE");
  }

  /**
   * From an empty ledger a file is marked as applied, with the checksum of its text, or stays
   * pending: a destructive one by whether its declarations are satisfied, any other by whether
   * everything that it makes is in the catalog.
   */
  lemma {:induction false} MarkedIff(hash: string -> string, ev: Evidence, dir: seq<File>, k: nat, lines: seq<string>)
    requires NeverEmpty(hash) && DistinctNames(dir) && k < |dir| && AreLines(lines) && dir[k].raw == Join(lines, '\n')
    ensures var f, rows := dir[k], Mark(hash, ev, dir, []);
            var marked := if Destructive(f) then Satisfied(ev.engine, lines, ev.baseline) else AllThere(ev, f);
            && Recorded(rows, f.name) == (if marked then MigrationChecksum(hash, f.raw) else "")
            && (f in PendingFiles(dir, rows) <==> !marked)
  {
    hide Satisfied, VerdictOf, Mark, MigrationChecksum, Recorded, PendingFiles, Join, AllThere;
    AbsentIff(ev, dir[k], lines);
    RecordedAfterMark(hash, ev, dir, k);
    PendingAreDistinct(dir, Mark(hash, ev, dir, []));
  }

  /** The case that must fail closed: something the file removes is still there, or its anchor is not. */
  lemma {:induction false} StillThereStaysPending(hash: string -> string, ev: Evidence, dir: seq<File>, k: nat,
                                                  lines: seq<string>, v: string)
    requires NeverEmpty(hash) && DistinctNames(dir) && k < |dir| && AreLines(lines) && dir[k].raw == Join(lines, '\n')
    requires Destructive(dir[k])
    requires || (DeclaredIn(lines, "SERVANA:REMOVES", v) && (!ev.engine.parses(v) || ev.engine.matches(v, ev.baseline)))
             || (DeclaredIn(lines, "SERVANA:ANCHOR", v) && !Occurs(ev.baseline, v))
    ensures VerdictOf(ev, dir[k]) == Absent && dir[k] in PendingFiles(dir, Mark(hash, ev, dir, []))
  {
    hide DeclaredIn, Occurs, VerdictOf, Mark, PendingFiles, Join, AllThere;
    AbsentIff(ev, dir[k], lines);
    MarkedIff(hash, ev, dir, k, lines);
  }

  /** The plainest line: `-- SERVANA:REMOVES p`, and likewise the anchor. */
  lemma {:induction false} PlainLineDeclares(marker: string, v: string)
    requires Trimmed(v) && forall x :: 0 <= x < |v| ==> v[x] !in {'\n', '\r', '\U{2028}', '\U{2029}'}
    ensures Declares("-- " + marker + " " + v, marker, v)
  {
    var p := Parts("", " ", " ", v, "");
    assert v + "" == v;
    assert LineOf(p, marker) == "" + "--" + " " + marker + " " + (v + "");
    assert "" + "--" + " " == "-- ";
    assert AreParts(p);
  }

  // ----- what is in the catalog

  /** A column counts as present exactly when it is in the table, or else in the table at the end of the renames. */
  lemma {:induction false} HasColumnIff(catalog: Catalog, renames: map<string, string>, table: string, column: string,
                                        n: nat)
    requires Follow(renames, table, n) !in renames
    ensures Has(catalog, renames, Column(table, column))
       <==> if table in catalog then column in catalog[table]
            else Follow(renames, table, n) in catalog && column in catalog[Follow(renames, table, n)]
  {
    CurrentIsTheEnd(renames, table, n);
  }
}
