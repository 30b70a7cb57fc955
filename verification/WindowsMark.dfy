/** What a checkout with other line endings does to the baseline mark, which reads the files as they are. */
module WindowsMark {
  import opened Text
  import opened Stripper
  import opened Checksum
  import opened Database
  import opened Runner
  import opened RunLaws
  import opened Bootstrap
  import opened LineEndings
  import opened WindowsFiles
  import opened WindowsRuns

  // ----- no removal is proven by such a file

  ghost predicate EndsInReturn(line: string) {
    line != [] && line[|line| - 1] == '\r'
  }

  /** Every line but the last ends with a carriage return. */
  ghost predicate ReturnsBeforeLast(lines: seq<string>) {
    forall k :: 0 <= k < |lines| - 1 ==> EndsInReturn(lines[k])
  }

  lemma {:induction false} SplitNext(c: char, rest: string)
    ensures Split([c] + rest, '\n')
         == if c == '\n' then [[]] + Split(rest, '\n')
            else [[c] + Split(rest, '\n')[0]] + Split(rest, '\n')[1..]
  {
    assert ([c] + rest)[1..] == rest;
  }

  /** One more character at the front, or one more Windows line ending. */
  lemma {:induction false} ReturnsNext(c: char, t: string)
    requires ReturnsBeforeLast(Split(t, '\n'))
    ensures c != '\n' ==> ReturnsBeforeLast(Split([c] + t, '\n'))
    ensures ReturnsBeforeLast(Split(['\r'] + (['\n'] + t), '\n'))
  {
    hide Split;
    SplitNext(c, t);
    SplitNext('\n', t);
    SplitNext('\r', ['\n'] + t);
    var lines := Split(t, '\n');
    assert (([[]] + lines)[1..]) == lines;
  }

  lemma {:induction false} OneLineOnly(t: string)
    requires '\n' !in t
    ensures |Split(t, '\n')| == 1
  {
    if t != [] {
      OneLineOnly(t[1..]);
    }
  }

  lemma {:induction false} ReturnsEndLines(s: string, e: LineEnding)
    requires e != Lf
    ensures ReturnsBeforeLast(Split(Convert(s, e), '\n'))
    decreases |s|
  {
    hide ReturnsBeforeLast, Split;
    if e == Cr {
      NoLfAfterCr(s);
      OneLineOnly(Convert(s, Cr));
      OneIsLast(Split(Convert(s, Cr), '\n'));
    } else if s == [] {
      OneLineOnly([]);
      OneIsLast(Split([], '\n'));
    } else {
      var rest := if |s| >= 2 && s[0] == '\r' && s[1] == '\n' then s[2..] else s[1..];
      ReturnsEndLines(rest, e);
      ReturnsNext(s[0], Convert(rest, e));
      assert "\r\n" + Convert(rest, e) == ['\r'] + (['\n'] + Convert(rest, e));
    }
  }

  lemma {:induction false} OneIsLast(lines: seq<string>)
    requires |lines| == 1
    ensures ReturnsBeforeLast(lines)
  {
  }

  /** The marker's pattern does not match a line that ends in a carriage return. */
  lemma {:induction false} ReturnHides(line: string, marker: string)
    requires EndsInReturn(line)
    ensures MarkerValue(line, marker) == None
  {
    assert EndsLine(line[|line| - 1]);
  }

  /** Only the last line can declare anything. */
  lemma {:induction false} LastLineDeclares(lines: seq<string>, marker: string)
    requires lines != [] && ReturnsBeforeLast(lines)
    ensures MarkerValues(lines, marker) == MarkerValues([lines[|lines| - 1]], marker)
    decreases |lines|
  {
    hide MarkerValue;
    if |lines| > 1 {
      ReturnHides(lines[0], marker);
      assert forall k :: 0 <= k < |lines[1..]| - 1 ==> lines[1..][k] == lines[k + 1];
      LastLineDeclares(lines[1..], marker);
    } else {
      assert lines == [lines[0]];
    }
  }

  lemma {:induction false} MarkerChar(line: string, b: nat)
    ensures HasAt(line, b, REMOVES_MARKER) ==> b + 8 < |line| && line[b + 8] == 'R'
    ensures HasAt(line, b, ANCHOR_MARKER) ==> b + 8 < |line| && line[b + 8] == 'A'
  {
    if HasAt(line, b, REMOVES_MARKER) {
      assert line[b + 8] == line[b..b + |REMOVES_MARKER|][8];
    }
    if HasAt(line, b, ANCHOR_MARKER) {
      assert line[b + 8] == line[b..b + |ANCHOR_MARKER|][8];
    }
  }

  /** A line declares a removal or an anchor, not both. */
  lemma {:induction false} OneMarkerPerLine(line: string)
    ensures MarkerValue(line, REMOVES_MARKER).None? || MarkerValue(line, ANCHOR_MARKER).None?
  {
    hide HasAt, EndsLine, Trim;
    if HasAt(line, SkipSpace(line, 0), "--") {
      DashesFit(line, SkipSpace(line, 0));
      MarkerChar(line, SkipSpace(line, SkipSpace(line, 0) + 2));
    }
  }

  lemma {:induction false} DashesFit(line: string, a: nat)
    requires HasAt(line, a, "--")
    ensures a + 2 <= |line|
  {
  }

  /** No file with `\r\n` or `\r` proves a removal, whatever it declares and whatever the baseline says. */
  lemma {:induction false} ReturnsProveNothing(engine: Engine, s: string, e: LineEnding, baseline: string)
    requires e != Lf
    ensures !Proven(engine, Convert(s, e), baseline)
  {
    hide MarkerValue, Convert, Gone, Includes;
    var lines := Split(Convert(s, e), '\n');
    ReturnsEndLines(s, e);
    LastLineDeclares(lines, REMOVES_MARKER);
    LastLineDeclares(lines, ANCHOR_MARKER);
    OneMarkerPerLine(lines[|lines| - 1]);
  }

  // ----- the verdict on one file

  lemma {:induction false} DeclaredInBoth(s: string)
    ensures DeclaresDestructive(Convert(s, CrLf)) <==> DeclaresDestructive(Convert(s, Lf))
  {
    hide Windows, Includes;
    SpellingsInStep(s);
    IncludesInStep(Convert(s, Lf), Convert(s, CrLf), DESTRUCTIVE_MARKER);
  }

  /** What is read from the statements of the file does not depend on its line endings. */
  ghost predicate SameEffects(ev: Evidence, f: File, f': File) {
    ev.effects(f'.raw) == ev.effects(f.raw)
  }

  /** A proof of removal that the other spelling of the file does not give. */
  ghost predicate ProofLost(ev: Evidence, f: File, f': File) {
    f'.raw != f.raw && DeclaresDestructive(f.raw) && Proven(ev.engine, f.raw, ev.baseline)
  }

  /**
   * The verdict on a file that declares itself destructive is the same in both spellings if
   * and only if it did not prove its removal; on any other file it is the same.
   */
  lemma {:induction false} WindowsVerdict(ev: Evidence, f: File, f': File)
    requires FileCheckout(f, f') && SameEffects(ev, f, f')
    ensures VerdictOf(ev, f') == if ProofLost(ev, f, f') then Absent else VerdictOf(ev, f)
    ensures VerdictOf(ev, f') == VerdictOf(ev, f) <==> !ProofLost(ev, f, f')
  {
    hide Convert, Includes, Proven, Has;
    if f'.raw != f.raw {
      DeclaredInBoth(f.raw);
      ReturnsProveNothing(ev.engine, f.raw, CrLf, ev.baseline);
    }
  }

  // ----- the mark of a directory

  lemma {:induction false} SameNamesThere(dir: seq<File>, dir': seq<File>)
    requires WindowsCheckout(dir, dir') && DistinctNames(dir)
    ensures DistinctNames(dir') && forall k :: 0 <= k < |dir| ==> dir'[k].name == dir[k].name
  {
    hide Convert;
    assert forall k :: 0 <= k < |dir| ==> FileCheckout(dir[k], dir'[k]);
  }

  ghost predicate AllSameEffects(ev: Evidence, dir: seq<File>, dir': seq<File>)
    requires |dir'| == |dir|
  {
    forall k :: 0 <= k < |dir| ==> SameEffects(ev, dir[k], dir'[k])
  }

  lemma {:induction false} SelectAlike(hash: string -> string, ev: Evidence, dir: seq<File>, dir': seq<File>,
                                       absent: bool)
    requires WindowsCheckout(dir, dir') && AllSameEffects(ev, dir, dir')
    requires forall k :: 0 <= k < |dir| ==> !ProofLost(ev, dir[k], dir'[k])
    ensures FileRows(hash, Select(ev, dir', absent)) == FileRows(hash, Select(ev, dir, absent))
    decreases |dir|
  {
    hide VerdictOf, ProofLost, SameEffects, MigrationChecksum, Convert;
    if dir != [] {
      var n := |dir| - 1;
      SelectAlike(hash, ev, dir[..n], dir'[..n], absent);
      assert FileCheckout(dir[n], dir'[n]);
      WindowsVerdict(ev, dir[n], dir'[n]);
      SameRow(hash, dir[n], dir'[n]);
      var p, p' := Select(ev, dir[..n], absent), Select(ev, dir'[..n], absent);
      FileRowsAppend(hash, p, dir[n]);
      FileRowsAppend(hash, p', dir'[n]);
      assert p + [] == p && p' + [] == p';
    }
  }

  lemma {:induction false} SameRow(hash: string -> string, f: File, f': File)
    requires FileCheckout(f, f')
    ensures f'.name == f.name && MigrationChecksum(hash, f'.raw) == MigrationChecksum(hash, f.raw)
  {
    hide Convert, MigrationChecksum;
    ChecksumIgnoresLineEndings(hash, f.raw, CrLf);
  }

  /** Whether the mark leaves a file pending, in each of the two checkouts. */
  lemma {:induction false} MarkedThere(hash: string -> string, ev: Evidence, dir: seq<File>, dir': seq<File>, k: nat)
    requires NeverEmpty(hash) && DistinctNames(dir) && WindowsCheckout(dir, dir') && AllSameEffects(ev, dir, dir')
    requires k < |dir|
    ensures var rows, rows' := Mark(hash, ev, dir, []), Mark(hash, ev, dir', []);
            && dir'[k].name == dir[k].name
            && Recorded(rows', dir[k].name)
               == (if ProofLost(ev, dir[k], dir'[k]) then "" else Recorded(rows, dir[k].name))
            && (ProofLost(ev, dir[k], dir'[k]) ==> Recorded(rows, dir[k].name) != "")
  {
    hide VerdictOf, SameEffects, MigrationChecksum, Convert, Recorded, Mark, Proven, Includes;
    SameNamesThere(dir, dir');
    assert FileCheckout(dir[k], dir'[k]);
    WindowsVerdict(ev, dir[k], dir'[k]);
    SameRow(hash, dir[k], dir'[k]);
    RecordedAfterMark(hash, ev, dir, k);
    RecordedAfterMark(hash, ev, dir', k);
    if ProofLost(ev, dir[k], dir'[k]) {
      DestructiveVerdict(ev, dir[k]);
    }
  }

  lemma {:induction false} PendingNameIff(hash: string -> string, ev: Evidence, dir: seq<File>, k: nat)
    requires NeverEmpty(hash) && DistinctNames(dir) && k < |dir|
    ensures var rows := Mark(hash, ev, dir, []);
            dir[k].name in NamesOfFiles(PendingFiles(dir, rows)) <==> Recorded(rows, dir[k].name) == ""
  {
    hide Recorded, Mark;
    var rows := Mark(hash, ev, dir, []);
    var fs := PendingFiles(dir, rows);
    PendingAreDistinct(dir, rows);
    if dir[k].name in NamesOfFiles(fs) {
      var x :| 0 <= x < |fs| && NamesOfFiles(fs)[x] == dir[k].name;
      assert fs[x] in fs;
      SameNameSameFile(dir, fs[x], k);
    }
    if Recorded(rows, dir[k].name) == "" {
      assert dir[k] in fs;
      var x :| 0 <= x < |fs| && fs[x] == dir[k];
      assert NamesOfFiles(fs)[x] == dir[k].name;
    }
  }

  lemma {:induction false} NamesOfRows(hash: string -> string, fs: seq<File>, fs': seq<File>)
    requires FileRows(hash, fs') == FileRows(hash, fs)
    ensures |fs'| == |fs|
    ensures NamesOfFiles(fs') == NamesOfFiles(fs)
  {
    hide MigrationChecksum;
    forall k | 0 <= k < |fs|
      ensures fs'[k].name == fs[k].name
    {
      assert FileRows(hash, fs')[k] == FileRows(hash, fs)[k];
    }
  }

  /**
   * The mark fails closed. Made from a checkout in which any files have `\r\n`, it leaves
   * pending what the mark of the Unix checkout leaves, and besides exactly the files that
   * have lost the proof of their removal. The two marks, and the two pending lists, are the
   * same if and only if there is no such file.
   */
  lemma {:induction false} WindowsMarkIff(hash: string -> string, ev: Evidence, dir: seq<File>, dir': seq<File>)
    requires NeverEmpty(hash) && DistinctNames(dir) && WindowsCheckout(dir, dir') && AllSameEffects(ev, dir, dir')
    ensures var rows, rows' := Mark(hash, ev, dir, []), Mark(hash, ev, dir', []);
            var lost := exists k :: 0 <= k < |dir| && ProofLost(ev, dir[k], dir'[k]);
            && (forall k :: 0 <= k < |dir| ==>
                  (Recorded(rows', dir'[k].name) == "" <==>
                     Recorded(rows, dir[k].name) == "" || ProofLost(ev, dir[k], dir'[k])))
            && (rows' == rows <==> !lost)
            && (NamesOfFiles(PendingFiles(dir', rows')) == NamesOfFiles(PendingFiles(dir, rows)) <==> !lost)
  {
    hide VerdictOf, ProofLost, AllSameEffects, MigrationChecksum, Convert, Recorded, Mark, FileCheckout, NeverEmpty,
         DistinctNames, FileRows, PendingFiles, NamesOfFiles;
    var rows, rows' := Mark(hash, ev, dir, []), Mark(hash, ev, dir', []);
    SameNamesThere(dir, dir');
    forall k | 0 <= k < |dir|
      ensures dir'[k].name == dir[k].name
      ensures Recorded(rows', dir[k].name)
              == if ProofLost(ev, dir[k], dir'[k]) then "" else Recorded(rows, dir[k].name)
      ensures ProofLost(ev, dir[k], dir'[k]) ==> Recorded(rows, dir[k].name) != ""
    {
      MarkedThere(hash, ev, dir, dir', k);
    }
    if k :| 0 <= k < |dir| && ProofLost(ev, dir[k], dir'[k]) {
      PendingNameIff(hash, ev, dir, k);
      PendingNameIff(hash, ev, dir', k);
    } else {
      MarkEmpty(hash, ev, dir);
      MarkEmpty(hash, ev, dir');
      SelectAlike(hash, ev, dir, dir', false);
      SelectAlike(hash, ev, dir, dir', true);
      MarkPartitionsHistory(hash, ev, dir);
      MarkPartitionsHistory(hash, ev, dir');
      NamesOfRows(hash, PendingFiles(dir, rows), PendingFiles(dir', rows'));
    }
  }
}
