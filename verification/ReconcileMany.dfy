/** One run of the reconciler on all manifests: what it writes to a contract file, and when it is enough. */
module ReconcileMany {
  import opened Text
  import opened Reconcile
  import opened ReconcileGuard
  import opened ReconcileLaws
  import opened ReconcileClients

  /** A client, and the keys of the requests it makes. */
  datatype Manifest = Manifest(client: string, keys: set<string>)

  type Key = (string, string) -> string

  // ----- what the manifests demand

  ghost predicate StatesAll(ms: seq<Manifest>, row: Row) {
    forall m :: m in ms ==> m.client in row.states
  }

  ghost predicate AllStatesAll(ms: seq<Manifest>, rows: seq<Row>) {
    forall k :: 0 <= k < |rows| ==> StatesAll(ms, rows[k])
  }

  function EditOf(key: Key, m: Manifest, row: Row): (d: Option<Edit>) {
    if m.client !in row.states then None
    else match NextState(row.states[m.client], key(row.method_, row.path) in m.keys)
      case None => None
      case Some(next) => Some(Edit(m.client, next))
  }

  /** What the manifests demand of a row, in their order. */
  function EditsOf(key: Key, ms: seq<Manifest>, row: Row): (ds: seq<Edit>) {
    if ms == [] then []
    else (match EditOf(key, ms[0], row) case None => [] case Some(d) => [d]) + EditsOf(key, ms[1..], row)
  }

  function ChangesTo(row: Row, ds: seq<Edit>): (cs: seq<Change>)
    ensures |cs| == |ds|
  {
    seq(|ds|, k requires 0 <= k < |ds| => Change(row, ds[k].client, ds[k].next))
  }

  /** The changes that one manifest demands, row by row. */
  function ChangesFor(key: Key, m: Manifest, rows: seq<Row>): (cs: seq<Change>) {
    if rows == [] then []
    else
      var n := |rows| - 1;
      ChangesFor(key, m, rows[..n]) + ChangesTo(rows[n], EditsOf(key, [m], rows[n]))
  }

  /** The changes in the order in which they are found: manifest by manifest. */
  function AllChanges(key: Key, ms: seq<Manifest>, rows: seq<Row>): (cs: seq<Change>) {
    if ms == [] then []
    else AllChanges(key, ms[..|ms| - 1], rows) + ChangesFor(key, ms[|ms| - 1], rows)
  }

  // ----- the sort

  /** The changes to the row on the given line, in the order in which they were found. */
  function At(cs: seq<Change>, line: nat): (r: seq<Change>) {
    if cs == [] then []
    else At(cs[..|cs| - 1], line) + (if cs[|cs| - 1].row.line == line then [cs[|cs| - 1]] else [])
  }

  /** `sort((a, b) => b.row.line - a.row.line)` of changes below line `n`: stable, from the last line up. */
  function ByLine(cs: seq<Change>, n: nat): (r: seq<Change>) {
    if n == 0 then [] else At(cs, n - 1) + ByLine(cs, n - 1)
  }

  lemma {:induction false} AtBoth(a: seq<Change>, c: seq<Change>, line: nat)
    ensures At(a + c, line) == At(a, line) + At(c, line)
    decreases |c|
  {
    if c == [] {
      assert a + c == a && At(a, line) + [] == At(a, line);
    } else {
      var n := |c| - 1;
      assert (a + c)[..|a| + n] == a + c[..n] && (a + c)[|a| + n] == c[n];
      AtBoth(a, c[..n], line);
    }
  }

  lemma {:induction false} AtOnly(cs: seq<Change>, line: nat)
    ensures forall k :: 0 <= k < |At(cs, line)| ==> At(cs, line)[k].row.line == line
    ensures (forall k :: 0 <= k < |cs| ==> cs[k].row.line == line) ==> At(cs, line) == cs
    ensures (forall k :: 0 <= k < |cs| ==> cs[k].row.line != line) ==> At(cs, line) == []
  {
    if cs != [] {
      AtOnly(cs[..|cs| - 1], line);
      assert cs == cs[..|cs| - 1] + [cs[|cs| - 1]];
    }
  }

  ghost predicate LinesFall(cs: seq<Change>) {
    forall j, k :: 0 <= j < k < |cs| ==> cs[k].row.line <= cs[j].row.line
  }

  ghost predicate LinesBelow(cs: seq<Change>, n: nat) {
    forall k :: 0 <= k < |cs| ==> cs[k].row.line < n
  }

  /** It is a stable sort: the lines fall, and the changes to each line keep their order. */
  lemma {:induction false} ByLineIsStable(cs: seq<Change>, n: nat)
    ensures LinesFall(ByLine(cs, n)) && LinesBelow(ByLine(cs, n), n)
    ensures forall line: nat :: At(ByLine(cs, n), line) == if line < n then At(cs, line) else []
    decreases n
  {
    hide At;
    if n > 0 {
      ByLineIsStable(cs, n - 1);
      AtOnly(cs, n - 1);
      forall line: nat
        ensures At(ByLine(cs, n), line) == if line < n then At(cs, line) else []
      {
        AtBoth(At(cs, n - 1), ByLine(cs, n - 1), line);
        AtOnly(At(cs, n - 1), line);
        assert [] + At(ByLine(cs, n - 1), line) == At(ByLine(cs, n - 1), line);
        assert At(cs, n - 1) + [] == At(cs, n - 1);
      }
    } else {
      forall line: nat { AtOnly([], line); }
    }
  }

  // ----- row by row, from the last up

  function ChangesByRow(key: Key, ms: seq<Manifest>, rows: seq<Row>): (cs: seq<Change>) {
    if rows == [] then []
    else ChangesByRow(key, ms, rows[1..]) + ChangesTo(rows[0], EditsOf(key, ms, rows[0]))
  }

  lemma {:induction false} EditsThen(key: Key, ms: seq<Manifest>, m: Manifest, row: Row)
    ensures EditsOf(key, ms + [m], row) == EditsOf(key, ms, row) + EditsOf(key, [m], row)
  {
    hide EditOf;
    if ms == [] {
      assert [] + [m] == [m] && [] + EditsOf(key, [m], row) == EditsOf(key, [m], row);
    } else {
      assert (ms + [m])[1..] == ms[1..] + [m] && (ms + [m])[0] == ms[0];
      EditsThen(key, ms[1..], m, row);
    }
  }

  lemma {:induction false} ChangesToBoth(row: Row, a: seq<Edit>, c: seq<Edit>)
    ensures ChangesTo(row, a + c) == ChangesTo(row, a) + ChangesTo(row, c)
  {
  }

  lemma {:induction false} AtRow(row: Row, ds: seq<Edit>, line: nat)
    ensures At(ChangesTo(row, ds), line) == if row.line == line then ChangesTo(row, ds) else []
  {
    AtOnly(ChangesTo(row, ds), line);
  }

  lemma {:induction false} ChangesForAt(key: Key, m: Manifest, rows: seq<Row>, i: nat, n: nat, k: nat)
    requires Ascending(rows, i, n) && k < |rows|
    ensures At(ChangesFor(key, m, rows), rows[k].line) == ChangesTo(rows[k], EditsOf(key, [m], rows[k]))
    decreases |rows|
  {
    hide EditsOf, At;
    var last := |rows| - 1;
    var line := rows[k].line;
    AtBoth(ChangesFor(key, m, rows[..last]), ChangesTo(rows[last], EditsOf(key, [m], rows[last])), line);
    AtRow(rows[last], EditsOf(key, [m], rows[last]), line);
    if k < last {
      ChangesForAt(key, m, rows[..last], i, n, k);
      var cs := ChangesTo(rows[k], EditsOf(key, [m], rows[k]));
      assert cs + [] == cs;
    } else {
      NotThere(key, m, rows[..last], line);
      var cs := ChangesTo(rows[last], EditsOf(key, [m], rows[last]));
      assert [] + cs == cs;
    }
  }

  lemma {:induction false} NotThere(key: Key, m: Manifest, rows: seq<Row>, line: nat)
    requires forall k :: 0 <= k < |rows| ==> rows[k].line != line
    ensures At(ChangesFor(key, m, rows), line) == []
    decreases |rows|
  {
    hide EditsOf;
    if rows != [] {
      var last := |rows| - 1;
      NotThere(key, m, rows[..last], line);
      AtBoth(ChangesFor(key, m, rows[..last]), ChangesTo(rows[last], EditsOf(key, [m], rows[last])), line);
      AtRow(rows[last], EditsOf(key, [m], rows[last]), line);
    }
  }

  lemma {:induction false} AllAt(key: Key, ms: seq<Manifest>, rows: seq<Row>, i: nat, n: nat, k: nat)
    requires Ascending(rows, i, n) && k < |rows|
    ensures At(AllChanges(key, ms, rows), rows[k].line) == ChangesTo(rows[k], EditsOf(key, ms, rows[k]))
    decreases |ms|
  {
    hide EditsOf, At, ChangesFor, Ascending;
    if ms == [] {
      NothingDemanded(key, rows[k]);
    } else {
      var last := |ms| - 1;
      AllAt(key, ms[..last], rows, i, n, k);
      AtBoth(AllChanges(key, ms[..last], rows), ChangesFor(key, ms[last], rows), rows[k].line);
      ChangesForAt(key, ms[last], rows, i, n, k);
      EditsThen(key, ms[..last], ms[last], rows[k]);
      assert ms[..last] + [ms[last]] == ms;
      ChangesToBoth(rows[k], EditsOf(key, ms[..last], rows[k]), EditsOf(key, [ms[last]], rows[k]));
    }
  }

  lemma {:induction false} NothingDemanded(key: Key, row: Row)
    ensures EditsOf(key, [], row) == [] && At([], row.line) == []
  {
  }

  lemma {:induction false} AllNotThere(key: Key, ms: seq<Manifest>, rows: seq<Row>, line: nat)
    requires forall k :: 0 <= k < |rows| ==> rows[k].line != line
    ensures At(AllChanges(key, ms, rows), line) == []
    decreases |ms|
  {
    hide ChangesFor;
    if ms != [] {
      var last := |ms| - 1;
      AllNotThere(key, ms[..last], rows, line);
      NotThere(key, ms[last], rows, line);
      AtBoth(AllChanges(key, ms[..last], rows), ChangesFor(key, ms[last], rows), line);
    }
  }

  lemma {:induction false} ByRowThen(key: Key, ms: seq<Manifest>, rows: seq<Row>, row: Row)
    ensures ChangesByRow(key, ms, rows + [row])
         == ChangesTo(row, EditsOf(key, ms, row)) + ChangesByRow(key, ms, rows)
    decreases |rows|
  {
    hide EditsOf, ChangesTo;
    if rows == [] {
      assert [] + [row] == [row] && [row][1..] == [];
      assert [] + ChangesTo(row, EditsOf(key, ms, row)) == ChangesTo(row, EditsOf(key, ms, row)) + [];
    } else {
      assert (rows + [row])[1..] == rows[1..] + [row] && (rows + [row])[0] == rows[0];
      ByRowThen(key, ms, rows[1..], row);
    }
  }

  /** Sorted, the changes are those of the last row, then those of the one before, each in the manifests' order. */
  lemma {:induction false} SortedByRow(key: Key, ms: seq<Manifest>, rows: seq<Row>, i: nat, n: nat, k: nat, line: nat)
    requires Ascending(rows, i, n) && k <= |rows|
    requires (forall j :: 0 <= j < k ==> rows[j].line < line) && forall j :: k <= j < |rows| ==> line <= rows[j].line
    ensures ByLine(AllChanges(key, ms, rows), line) == ChangesByRow(key, ms, rows[..k])
    decreases line
  {
    hide EditsOf, At, AllChanges, ChangesTo;
    if line == 0 {
      assert rows[..k] == [];
    } else if k > 0 && rows[k - 1].line == line - 1 {
      AllAt(key, ms, rows, i, n, k - 1);
      SortedByRow(key, ms, rows, i, n, k - 1, line - 1);
      assert rows[..k - 1] + [rows[k - 1]] == rows[..k];
      ByRowThen(key, ms, rows[..k - 1], rows[k - 1]);
    } else {
      forall j | 0 <= j < |rows|
        ensures rows[j].line != line - 1
      {
        if j < k - 1 {
          assert rows[j].line < rows[k - 1].line;
        }
      }
      AllNotThere(key, ms, rows, line - 1);
      SortedByRow(key, ms, rows, i, n, k, line - 1);
      assert [] + ChangesByRow(key, ms, rows[..k]) == ChangesByRow(key, ms, rows[..k]);
    }
  }

  // ----- writing all of them back

  lemma {:induction false} WriteInside(pre: seq<Line>, w: seq<Line>, post: seq<Line>, i: nat, e: nat, d: Edit)
    requires e < |w|
    ensures WriteLines(pre + w + post, |pre| + i, |pre| + e, d.client, d.next)
         == pre + WriteLines(w, i, e, d.client, d.next) + post
    decreases e + 1 - i
  {
    hide WriteToks, LineMatches;
    if i <= e {
      assert (pre + w + post)[|pre| + i] == w[i];
      WriteInside(pre, w, post, i + 1, e, d);
    }
  }

  /** The changes to one row edit its block where it stands. */
  lemma {:induction false} ApplyEdits(pre: seq<Line>, w: seq<Line>, post: seq<Line>, row: Row, e: nat, ds: seq<Edit>)
    requires e < |w| && row.line == |pre| && row.endLine == |pre| + e
    ensures InRange(ChangesTo(row, ds), |pre + w + post|)
    ensures ApplyChanges(pre + w + post, ChangesTo(row, ds)) == pre + EditAll(w, e, row.implied, ds) + post
    decreases |ds|
  {
    hide WriteLines;
    if ds != [] {
      var d, cs := ds[0], ChangesTo(row, ds);
      var v := EditOne(w, e, row.implied, d);
      assert cs[1..] == ChangesTo(row, ds[1..]);
      OneEdit(pre, w, post, row, e, d);
      ApplyEdits(pre, v, post, row, e, ds[1..]);
    }
  }

  lemma {:induction false} OneEdit(pre: seq<Line>, w: seq<Line>, post: seq<Line>, row: Row, e: nat, d: Edit)
    requires e < |w| && row.line == |pre| && row.endLine == |pre| + e
    ensures ApplyChange(pre + w + post, Change(row, d.client, d.next)) == pre + EditOne(w, e, row.implied, d) + post
  {
    hide WriteLines;
    if d.client in row.implied {
      InsertLocal(pre, w, post, Inserted(d.client, d.next));
    } else {
      WriteInside(pre, w, post, 0, e, d);
    }
  }

  function Plains(lines: seq<Line>, doc: Doc): (r: Doc) {
    if lines == [] then doc else Plain(lines[0], Plains(lines[1..], doc))
  }

  /** What a run on all manifests makes of a document. */
  ghost function RewriteAll(defaults: Defaults, key: Key, ms: seq<Manifest>, doc: Doc, e: Entry): (r: Doc)
    requires ValidDoc(doc, e)
  {
    match doc
    case End => End
    case Plain(line, rest) => Plain(line, RewriteAll(defaults, key, ms, rest, Step(e, line)))
    case Block(b, rest) =>
      var row := BlockRow(defaults, b, 0, e);
      var ds := EditsOf(key, ms, row);
      Block(Inside(b, |b| - 1, row.implied, ds),
            Plains(Outside(|b| - 1, row.implied, ds), RewriteAll(defaults, key, ms, rest, e.(id := ""))))
  }

  lemma {:induction false} FlattenPlains(lines: seq<Line>, doc: Doc)
    ensures Flatten(Plains(lines, doc)) == lines + Flatten(doc)
  {
    if lines != [] {
      FlattenPlains(lines[1..], doc);
    }
  }

  lemma {:induction false} ApplyMore(lines: seq<Line>, cs: seq<Change>, more: seq<Change>)
    requires InRange(cs, |lines|) && InRange(more, |lines|)
    ensures InRange(cs + more, |lines|) && |ApplyChanges(lines, cs)| >= |lines|
    ensures ApplyChanges(lines, cs + more) == ApplyChanges(ApplyChanges(lines, cs), more)
    decreases |more|
  {
    hide ApplyChange;
    if more == [] {
      assert cs + more == cs;
      ApplyGrows(lines, cs);
    } else {
      var n := |more| - 1;
      ApplyMore(lines, cs, more[..n]);
      assert cs + more == (cs + more[..n]) + [more[n]] && more == more[..n] + [more[n]];
      ApplyChangesThen(lines, cs + more[..n], more[n]);
      ApplyChangesThen(ApplyChanges(lines, cs), more[..n], more[n]);
    }
  }

  lemma {:induction false} ApplyGrows(lines: seq<Line>, cs: seq<Change>)
    requires InRange(cs, |lines|)
    ensures |ApplyChanges(lines, cs)| >= |lines|
    decreases |cs|
  {
    hide ApplyChange;
    if cs != [] {
      ApplyGrows(ApplyChange(lines, cs[0]), cs[1..]);
    }
  }

  lemma {:induction false} RowEdits(defaults: Defaults, key: Key, ms: seq<Manifest>, b: seq<Line>, base: nat, e: Entry)
    requires b != []
    ensures var row, row0 := BlockRow(defaults, b, base, e), BlockRow(defaults, b, 0, e);
            && row.line == base && row.endLine == base + (|b| - 1) && row.implied == row0.implied
            && row.states == row0.states && EditsOf(key, ms, row) == EditsOf(key, ms, row0)
    decreases |ms|
  {
    hide StatesOf, ImpliedOf, TokensOf;
    if ms != [] {
      RowEdits(defaults, key, ms[1..], b, base, e);
    }
  }

  lemma {:induction false} ByRowInRange(defaults: Defaults, key: Key, ms: seq<Manifest>, doc: Doc, base: nat, e: Entry)
    requires ValidDoc(doc, e)
    ensures InRange(ChangesByRow(key, ms, ReadDoc(defaults, doc, base, e)), base + |Flatten(doc)|)
    decreases doc
  {
    hide StatesOf, ImpliedOf, IsBlock, EditsOf, BlockRow;
    match doc
    case End =>
    case Plain(line, rest) => ByRowInRange(defaults, key, ms, rest, base + 1, Step(e, line));
    case Block(b, rest) =>
      var row, rows := BlockRow(defaults, b, base, e), ReadDoc(defaults, rest, base + |b|, e.(id := ""));
      ByRowInRange(defaults, key, ms, rest, base + |b|, e.(id := ""));
      RowEdits(defaults, key, ms, b, base, e);
      assert ([row] + rows)[1..] == rows;
      InRangeBoth(ChangesByRow(key, ms, rows), row, EditsOf(key, ms, row), base + |Flatten(doc)|);
  }

  lemma {:induction false} InRangeBoth(cs: seq<Change>, row: Row, ds: seq<Edit>, n: nat)
    requires InRange(cs, n) && row.line <= row.endLine < n
    ensures InRange(cs + ChangesTo(row, ds), n) && InRange(ChangesTo(row, ds), n)
  {
  }

  /** Line numbers taken before any change: all changes of all manifests edit each block where it stands. */
  lemma {:induction false} ApplyAllIsRewrite(defaults: Defaults, key: Key, ms: seq<Manifest>, pre: seq<Line>, doc: Doc,
                                             e: Entry)
    requires ValidDoc(doc, e)
    ensures InRange(ChangesByRow(key, ms, ReadDoc(defaults, doc, |pre|, e)), |pre + Flatten(doc)|)
    ensures ApplyChanges(pre + Flatten(doc), ChangesByRow(key, ms, ReadDoc(defaults, doc, |pre|, e)))
         == pre + Flatten(RewriteAll(defaults, key, ms, doc, e))
    decreases doc
  {
    hide StatesOf, ImpliedOf, IsBlock, EditsOf, BlockRow, InRange, ApplyChanges, Inside, Outside;
    ByRowInRange(defaults, key, ms, doc, |pre|, e);
    match doc
    case End =>
      NothingApplied(pre + Flatten(doc));
    case Plain(line, rest) =>
      ApplyAllIsRewrite(defaults, key, ms, pre + [line], rest, Step(e, line));
      Reassociate(pre, [line], Flatten(rest));
      Reassociate(pre, [line], Flatten(RewriteAll(defaults, key, ms, rest, Step(e, line))));
    case Block(b, rest) =>
      ApplyAllIsRewrite(defaults, key, ms, pre + b, rest, e.(id := ""));
      Reassociate(pre, b, Flatten(rest));
      ApplyAllBlock(defaults, key, ms, pre, b, rest, e);
  }

  lemma {:induction false} NothingApplied(lines: seq<Line>)
    ensures ApplyChanges(lines, []) == lines
  {
  }

  lemma {:induction false} ApplyAllBlock(defaults: Defaults, key: Key, ms: seq<Manifest>, pre: seq<Line>, b: seq<Line>,
                                         rest: Doc, e: Entry)
    requires ValidDoc(Block(b, rest), e)
    requires var cs := ChangesByRow(key, ms, ReadDoc(defaults, rest, |pre + b|, e.(id := "")));
             && InRange(cs, |(pre + b) + Flatten(rest)|)
             && ApplyChanges((pre + b) + Flatten(rest), cs)
                == (pre + b) + Flatten(RewriteAll(defaults, key, ms, rest, e.(id := "")))
    ensures var lines, cs := (pre + b)
            + Flatten(rest), ChangesByRow(key, ms, ReadDoc(defaults, Block(b, rest), |pre|, e));
            && InRange(cs, |lines|)
            && ApplyChanges(lines, cs) == pre + Flatten(RewriteAll(defaults, key, ms, Block(b, rest), e))
  {
    hide StatesOf, ImpliedOf, IsBlock, EditsOf, BlockRow, InRange, ApplyChanges, Inside, Outside, EditAll, ChangesTo;
    var row, rows := BlockRow(defaults, b, |pre|, e), ReadDoc(defaults, rest, |pre + b|, e.(id := ""));
    var lines, post := (pre + b) + Flatten(rest), Flatten(RewriteAll(defaults, key, ms, rest, e.(id := "")));
    var cs, ds := ChangesByRow(key, ms, rows), EditsOf(key, ms, row);
    RowEdits(defaults, key, ms, b, |pre|, e);
    assert ([row] + rows)[1..] == rows;
    RowInRange(row, ds, |lines|);
    ApplyMore(lines, cs, ChangesTo(row, ds));
    ApplyEdits(pre, b, post, row, |b| - 1, ds);
    BlockSplits(b, row.implied, ds);
    FlattenPlains(Outside(|b| - 1, row.implied, ds), RewriteAll(defaults, key, ms, rest, e.(id := "")));
    Reassociate(Inside(b, |b| - 1, row.implied, ds), Outside(|b| - 1, row.implied, ds), post);
    Reassociate(pre, EditAll(b, |b| - 1, row.implied, ds), post);
  }

  lemma {:induction false} RowInRange(row: Row, ds: seq<Edit>, n: nat)
    requires row.line <= row.endLine < n
    ensures InRange(ChangesTo(row, ds), n)
  {
  }

  lemma {:induction false} BlockSplits(b: seq<Line>, implied: set<string>, ds: seq<Edit>)
    requires b != []
    ensures EditAll(b, |b| - 1, implied, ds) == Inside(b, |b| - 1, implied, ds) + Outside(|b| - 1, implied, ds)
  {
    EditsSplit(b, |b| - 1, implied, ds, []);
    assert b + [] == b && Outside(|b| - 1, implied, ds) + [] == Outside(|b| - 1, implied, ds);
  }
}
