/** Rewriting a contract file so that its recorded caller states agree with a client's manifest. */
module Reconcile {
  import opened Text

  // ----- the contract file, line by line

  /** What the reader's patterns find in a line, in order. `exact` marks a pair written as `client: 'value'`. */
  datatype Tok =
    | Open
    | Close
    | Spread(name: string)
    | Pair(client: string, value: string, exact: bool)

  datatype Tag = IdLine(id: string) | MethodLine(method_: string) | PathLine(path: string) | CallersLine | OtherLine

  datatype Line = Line(tag: Tag, toks: seq<Tok>)

  type States = map<string, string>
  type Defaults = map<string, States>

  datatype Row = Row(id: string, method_: string, path: string, line: nat, endLine: nat, states: States,
                     implied: set<string>)

  // ----- reading

  /** Brace depth over one line: where it first falls back to zero, or what it is at the end. */
  datatype Depth = Closed | Level(depth: int)

  function ScanLine(toks: seq<Tok>, depth: int): (d: Depth) {
    if toks == [] then Level(depth)
    else match toks[0]
      case Open => ScanLine(toks[1..], depth + 1)
      case Close => if depth - 1 == 0 then Closed else ScanLine(toks[1..], depth - 1)
      case _ => ScanLine(toks[1..], depth)
  }

  function ClosingFrom(lines: seq<Line>, i: nat, depth: int): (r: Option<nat>)
    requires i <= |lines|
    ensures r.Some? ==> i <= r.value < |lines|
    decreases |lines| - i
  {
    if i == |lines| then None
    else match ScanLine(lines[i].toks, depth)
      case Closed => Some(i)
      case Level(d) => ClosingFrom(lines, i + 1, d)
  }

  function TokensOf(lines: seq<Line>): (toks: seq<Tok>) {
    if lines == [] then [] else lines[0].toks + TokensOf(lines[1..])
  }

  /** The states that the spreads give, later ones over earlier ones. */
  function SpreadStates(defaults: Defaults, toks: seq<Tok>): (s: States) {
    if toks == [] then map[]
    else
      var s := SpreadStates(defaults, toks[..|toks| - 1]);
      var last := toks[|toks| - 1];
      if last.Spread? && last.name in defaults then s + defaults[last.name] else s
  }

  /** The explicit pairs over the spreads, later ones over earlier ones. */
  function PairStates(base: States, toks: seq<Tok>): (s: States) {
    if toks == [] then base
    else
      var s := PairStates(base, toks[..|toks| - 1]);
      var last := toks[|toks| - 1];
      if last.Pair? && last.client != "callers" then s[last.client := last.value] else s
  }

  predicate HasPair(toks: seq<Tok>, client: string) {
    exists k :: 0 <= k < |toks| && toks[k].Pair? && toks[k].client == client && client != "callers"
  }

  function StatesOf(defaults: Defaults, toks: seq<Tok>): (s: States) {
    PairStates(SpreadStates(defaults, toks), toks)
  }

  /** The clients whose state comes from a spread and is not stated explicitly. */
  function ImpliedOf(defaults: Defaults, toks: seq<Tok>): (s: set<string>) {
    set c | c in SpreadStates(defaults, toks).Keys && !HasPair(toks, c)
  }

  function RowAt(defaults: Defaults, lines: seq<Line>, i: nat, e: nat, id: string, m: string, p: string): (r: Row)
    requires i <= e < |lines|
  {
    var toks := TokensOf(lines[i..e + 1]);
    Row(id, m, p, i, e, StatesOf(defaults, toks), ImpliedOf(defaults, toks))
  }

  /** The rows from line `i` on, given what has been read so far of the current entry. */
  function RowsFrom(defaults: Defaults, lines: seq<Line>, i: nat, id: string, m: string, p: string): (rows: seq<Row>)
    requires i <= |lines|
    decreases |lines| - i
  {
    if i == |lines| then []
    else match lines[i].tag
      case IdLine(x) => RowsFrom(defaults, lines, i + 1, x, "", "")
      case MethodLine(x) => RowsFrom(defaults, lines, i + 1, id, x, p)
      case PathLine(x) => RowsFrom(defaults, lines, i + 1, id, m, x)
      case OtherLine => RowsFrom(defaults, lines, i + 1, id, m, p)
      case CallersLine =>
        var e := ClosingFrom(lines, i, 0);
        if id == "" || e.None? then RowsFrom(defaults, lines, i + 1, id, m, p)
        else [RowAt(defaults, lines, i, e.value, id, m, p)] + RowsFrom(defaults, lines, i + 1, "", m, p)
  }

  method ReadContractRows(defaults: Defaults, lines: seq<Line>) returns (rows: seq<Row>)
    ensures rows == RowsFrom(defaults, lines, 0, "", "", "")
  {
    hide StatesOf, ImpliedOf, TokensOf, ClosingFrom;
    rows := [];
    var id, m, p := "", "", "";
    var i := 0;
    while i < |lines|
      invariant 0 <= i <= |lines|
      invariant rows + RowsFrom(defaults, lines, i, id, m, p) == RowsFrom(defaults, lines, 0, "", "", "")
    {
      match lines[i].tag {
        case IdLine(x) => id, m, p := x, "", "";
        case MethodLine(x) => m := x;
        case PathLine(x) => p := x;
        case OtherLine =>
        case CallersLine =>
          var e := ClosingFrom(lines, i, 0);
          if id != "" && e.Some? {
            rows := rows + [RowAt(defaults, lines, i, e.value, id, m, p)];
            id := "";
          }
      }
      i := i + 1;
    }
  }

  // ----- deriving and writing back

  datatype Change = Change(row: Row, client: string, next: string)

  /** What a row's recorded state must become, or nothing. */
  function NextState(current: string, called: bool): (next: Option<string>) {
    if called && current != "migrated" then Some("migrated")
    else if !called && current == "migrated" then Some("legacy")
    else None
  }

  /** What a row must say: called rows are migrated, others are not, and what is neither stays as it is. */
  function Owed(current: string, called: bool): (state: string) {
    if called then "migrated" else if current == "migrated" then "legacy" else current
  }

  /** A row is changed exactly when being migrated and being called disagree, and to what it must say. */
  lemma {:induction false} NextIsOwed(current: string, called: bool)
    ensures NextState(current, called)
         == if current == "migrated" <==> called then None else Some(Owed(current, called))
    ensures (current == "migrated" <==> called) ==> Owed(current, called) == current
  {
  }

  /** The change that a row needs; a row that states nothing for the client is refused before. */
  function ChangeOf(row: Row, client: string, called: (string, string) -> bool): (c: Option<Change>)
    requires client in row.states
  {
    var next := NextState(row.states[client], called(row.method_, row.path));
    if next.None? then None else Some(Change(row, client, next.value))
  }

  predicate AllState(rows: seq<Row>, client: string) {
    forall k :: 0 <= k < |rows| ==> client in rows[k].states
  }

  /** The changes, in the order in which they are written back: from the last row up. */
  function ChangesUp(rows: seq<Row>, client: string, called: (string, string) -> bool): (cs: seq<Change>)
    requires AllState(rows, client)
  {
    if rows == [] then []
    else
      var c := ChangeOf(rows[0], client, called);
      ChangesUp(rows[1..], client, called) + (if c.Some? then [c.value] else [])
  }

  lemma {:induction false} ChangesUpThen(rows: seq<Row>, row: Row, client: string, called: (string, string) -> bool)
    requires AllState(rows, client) && client in row.states && AllState(rows + [row], client)
    ensures ChangesUp(rows + [row], client, called)
         == (match ChangeOf(row, client, called) case None => [] case Some(c) => [c]) + ChangesUp(rows, client, called)
    decreases |rows|
  {
    hide ChangeOf;
    if rows == [] {
      assert [] + [row] == [row] && [row][1..] == [];
    } else {
      assert (rows + [row])[1..] == rows[1..] + [row] && (rows + [row])[0] == rows[0];
      ChangesUpThen(rows[1..], row, client, called);
    }
  }

  /**
   * Refused when a row states nothing for the client; the changes are kept in the order in which
   * they will be written.
   */
  method DeriveChanges(rows: seq<Row>, client: string, called: (string, string) -> bool)
    returns (cs: Option<seq<Change>>)
    ensures cs.Some? <==> AllState(rows, client)
    ensures cs.Some? ==> cs.value == ChangesUp(rows, client, called)
  {
    hide ChangeOf, ChangesUp;
    var changes: seq<Change> := [];
    assert ChangesUp(rows[..0], client, called) == [] by {
      NoChanges(client, called);
      assert rows[..0] == [];
    }
    var k := 0;
    while k < |rows|
      invariant 0 <= k <= |rows| && AllState(rows[..k], client)
      invariant changes == ChangesUp(rows[..k], client, called)
    {
      if client !in rows[k].states {
        return None;
      }
      assert rows[..k + 1] == rows[..k] + [rows[k]];
      ChangesUpThen(rows[..k], rows[k], client, called);
      var c := ChangeOf(rows[k], client, called);
      if c.Some? {
        changes := [c.value] + changes;
      }
      k := k + 1;
    }
    assert rows[..k] == rows;
    cs := Some(changes);
  }

  lemma {:induction false} NoChanges(client: string, called: (string, string) -> bool)
    ensures ChangesUp([], client, called) == []
  {
  }

  predicate EndsWith(s: string, suffix: string) {
    |suffix| <= |s| && s[|s| - |suffix|..] == suffix
  }

  /** The writer's pattern, which nothing anchors on the left. */
  predicate WriterMatches(t: Tok, client: string) {
    t.Pair? && t.exact && EndsWith(t.client, client)
  }

  /** Replaces the first match in a line. */
  function WriteToks(toks: seq<Tok>, client: string, next: string): (r: seq<Tok>)
    ensures |r| == |toks|
  {
    if toks == [] then []
    else if WriterMatches(toks[0], client) then [Pair(toks[0].client, next, true)] + toks[1..]
    else [toks[0]] + WriteToks(toks[1..], client, next)
  }

  predicate HasMatch(toks: seq<Tok>, client: string) {
    exists k :: 0 <= k < |toks| && WriterMatches(toks[k], client)
  }

  predicate LineMatches(line: Line, client: string) {
    HasMatch(line.toks, client)
  }

  /** Replaces the first match in the lines from `i` to `e`. */
  function WriteLines(lines: seq<Line>, i: nat, e: nat, client: string, next: string): (r: seq<Line>)
    requires e < |lines|
    ensures |r| == |lines|
    decreases e + 1 - i
  {
    if i > e then lines
    else if LineMatches(lines[i], client) then lines[i := Line(lines[i].tag, WriteToks(lines[i].toks, client, next))]
    else WriteLines(lines, i + 1, e, client, next)
  }

  /** An implied state is overridden by a new line below the opening brace; an explicit one is replaced in place. */
  function ApplyChange(lines: seq<Line>, c: Change): (r: seq<Line>)
    requires c.row.line <= c.row.endLine < |lines|
    ensures |r| >= |lines|
  {
    if c.client in c.row.implied then
      lines[..c.row.line + 1] + [Line(OtherLine, [Pair(c.client, c.next, true)])] + lines[c.row.line + 1..]
    else WriteLines(lines, c.row.line, c.row.endLine, c.client, c.next)
  }

  /** Every change names lines of a file of `n` lines. */
  predicate InRange(cs: seq<Change>, n: nat) {
    forall k :: 0 <= k < |cs| ==> cs[k].row.line <= cs[k].row.endLine < n
  }

  function ApplyChanges(lines: seq<Line>, cs: seq<Change>): (r: seq<Line>)
    requires InRange(cs, |lines|)
    decreases |cs|
  {
    if cs == [] then lines else ApplyChanges(ApplyChange(lines, cs[0]), cs[1..])
  }

  method WriteBack(lines: seq<Line>, cs: seq<Change>) returns (out: seq<Line>)
    requires InRange(cs, |lines|)
    ensures out == ApplyChanges(lines, cs)
  {
    hide WriteToks, LineMatches;
    out := lines;
    var k := 0;
    while k < |cs|
      invariant 0 <= k <= |cs| && |out| >= |lines|
      invariant ApplyChanges(out, cs[k..]) == ApplyChanges(lines, cs)
    {
      var row, client, next := cs[k].row, cs[k].client, cs[k].next;
      assert cs[k..][1..] == cs[k + 1..];
      if client in row.implied {
        out := out[..row.line + 1] + [Line(OtherLine, [Pair(client, next, true)])] + out[row.line + 1..];
      } else {
        var i := row.line;
        ghost var before := out;
        while i <= row.endLine
          invariant row.line <= i <= row.endLine + 1 && out == before
          invariant WriteLines(out, i, row.endLine, client, next)
                  == WriteLines(before, row.line, row.endLine, client, next)
        {
          if LineMatches(out[i], client) {
            out := out[i := Line(out[i].tag, WriteToks(out[i].toks, client, next))];
            break;
          }
          i := i + 1;
        }
        assert out == WriteLines(before, row.line, row.endLine, client, next);
      }
      k := k + 1;
    }
  }
}
