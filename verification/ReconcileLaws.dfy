/** One run of the reconciler on any contract file of the expected shape: what it writes, and when it is enough. */
module ReconcileLaws {
  import opened Text
  import opened Reconcile
  import opened ReconcileGuard

  // ----- the shape of a contract file

  /** Lines outside `callers` blocks, and blocks, in order. */
  datatype Doc = End | Plain(line: Line, rest: Doc) | Block(lines: seq<Line>, rest: Doc)

  function Flatten(doc: Doc): (lines: seq<Line>) {
    match doc
    case End => []
    case Plain(line, rest) => [line] + Flatten(rest)
    case Block(lines, rest) => lines + Flatten(rest)
  }

  /** What has been read of the current entry. */
  datatype Entry = Entry(id: string, method_: string, path: string)

  const NO_ENTRY := Entry("", "", "")

  function Step(e: Entry, line: Line): (r: Entry) {
    match line.tag
    case IdLine(x) => Entry(x, "", "")
    case MethodLine(x) => e.(method_ := x)
    case PathLine(x) => e.(path := x)
    case _ => e
  }

  /** A block begins with `callers: {`, ends with the line that closes it, and carries no other field of the entry. */
  ghost predicate IsBlock(b: seq<Line>) {
    && b != [] && b[0].tag == CallersLine
    && (forall k :: 0 < k < |b| ==> b[k].tag == OtherLine)
    && ClosingFrom(b, 0, 0) == Some(|b| - 1)
  }

  /** Every block belongs to an entry, and no entry has two. */
  ghost predicate ValidDoc(doc: Doc, e: Entry) {
    match doc
    case End => true
    case Plain(line, rest) => (line.tag == CallersLine ==> e.id == "") && ValidDoc(rest, Step(e, line))
    case Block(lines, rest) => e.id != "" && lines != [] && IsBlock(lines) && ValidDoc(rest, e.(id := ""))
  }

  function BlockRow(defaults: Defaults, b: seq<Line>, base: nat, e: Entry): (r: Row)
    requires b != []
  {
    Row(e.id, e.method_, e.path, base, base + |b| - 1, StatesOf(defaults, TokensOf(b)),
        ImpliedOf(defaults, TokensOf(b)))
  }

  /** The rows of a document whose first line has number `base`. */
  ghost function ReadDoc(defaults: Defaults, doc: Doc, base: nat, e: Entry): (rows: seq<Row>)
    requires ValidDoc(doc, e)
  {
    match doc
    case End => []
    case Plain(line, rest) => ReadDoc(defaults, rest, base + 1, Step(e, line))
    case Block(b, rest) => [BlockRow(defaults, b, base, e)] + ReadDoc(defaults, rest, base + |b|, e.(id := ""))
  }

  // ----- the reader reads documents

  /** Where a block closes depends only on the lines from its opening on. */
  lemma {:induction false} ClosingShift(a: seq<Line>, i: nat, c: seq<Line>, j: nat, depth: int)
    requires i <= |a| && j <= |c| && ClosingFrom(a, i, depth).Some?
    requires a[i..] <= c[j..]
    ensures ClosingFrom(c, j, depth) == Some(ClosingFrom(a, i, depth).value - i + j)
    decreases |a| - i
  {
    hide ScanLine;
    assert a[i..][0] == c[j..][0];
    match ScanLine(a[i].toks, depth) {
      case Closed =>
      case Level(d) =>
        assert a[i + 1..] == a[i..][1..] && c[j + 1..] == c[j..][1..];
        ClosingShift(a, i + 1, c, j + 1, d);
    }
  }

  lemma {:induction false} SkipOther(defaults: Defaults, lines: seq<Line>, i: nat, j: nat, id: string, m: string,
                                     p: string)
    requires i <= j <= |lines| && forall k :: i <= k < j ==> lines[k].tag == OtherLine
    ensures RowsFrom(defaults, lines, i, id, m, p) == RowsFrom(defaults, lines, j, id, m, p)
    decreases j - i
  {
    hide RowAt, ClosingFrom;
    if i < j {
      SkipOther(defaults, lines, i + 1, j, id, m, p);
    }
  }

  lemma {:induction false} ReadBlock(defaults: Defaults, pre: seq<Line>, b: seq<Line>, post: seq<Line>, e: Entry)
    requires e.id != "" && IsBlock(b)
    ensures RowsFrom(defaults, pre + b + post, |pre|, e.id, e.method_, e.path)
         == [BlockRow(defaults, b, |pre|, e)] + RowsFrom(defaults, pre + b + post, |pre + b|, "", e.method_, e.path)
  {
    hide StatesOf, ImpliedOf, TokensOf, ClosingFrom;
    var lines := pre + b + post;
    ClosingShift(b, 0, lines, |pre|, 0);
    BlockStands(pre, b, post);
    SkipOther(defaults, lines, |pre| + 1, |pre| + |b|, "", e.method_, e.path);
  }

  lemma {:induction false} BlockStands(pre: seq<Line>, b: seq<Line>, post: seq<Line>)
    requires b != []
    ensures (pre + b + post)[|pre|] == b[0] && (pre + b + post)[|pre|..|pre| + |b|] == b
    ensures forall k :: |pre| < k < |pre| + |b| ==> (pre + b + post)[k] == b[k - |pre|]
  {
  }

  lemma {:induction false} ReadIsDoc(defaults: Defaults, pre: seq<Line>, doc: Doc, e: Entry)
    requires ValidDoc(doc, e)
    ensures RowsFrom(defaults, pre + Flatten(doc), |pre|, e.id, e.method_, e.path) == ReadDoc(defaults, doc, |pre|, e)
    decreases doc
  {
    hide RowAt, BlockRow, ClosingFrom, IsBlock;
    var lines := pre + Flatten(doc);
    match doc
    case End =>
    case Plain(line, rest) =>
      assert lines == (pre + [line]) + Flatten(rest) && lines[|pre|] == line;
      ReadIsDoc(defaults, pre + [line], rest, Step(e, line));
    case Block(b, rest) =>
      assert lines == pre + b + Flatten(rest) == (pre + b) + Flatten(rest);
      ReadBlock(defaults, pre, b, Flatten(rest), e);
      ReadIsDoc(defaults, pre + b, rest, e.(id := ""));
  }

  // ----- the writer rewrites documents

  /** What is reconciled: the spread defaults, the client, and the requests its manifest names. */
  datatype Job = Job(defaults: Defaults, client: string, called: (string, string) -> bool)

  /** Every block states something for the client. */
  ghost predicate AllBlocksState(job: Job, doc: Doc) {
    match doc
    case End => true
    case Plain(_, rest) => AllBlocksState(job, rest)
    case Block(b, rest) => job.client in StatesOf(job.defaults, TokensOf(b)) && AllBlocksState(job, rest)
  }

  function BlockNext(job: Job, b: seq<Line>, e: Entry): (next: Option<string>)
    requires job.client in StatesOf(job.defaults, TokensOf(b))
  {
    NextState(StatesOf(job.defaults, TokensOf(b))[job.client], job.called(e.method_, e.path))
  }

  predicate BlockImplies(job: Job, b: seq<Line>) {
    job.client in ImpliedOf(job.defaults, TokensOf(b))
  }

  function Inserted(client: string, next: string): (line: Line) {
    Line(OtherLine, [Pair(client, next, true)])
  }

  function WriteBlock(job: Job, b: seq<Line>, next: string): (r: seq<Line>)
    requires b != []
    ensures |r| == if BlockImplies(job, b) then |b| + 1 else |b|
  {
    if BlockImplies(job, b) then [b[0], Inserted(job.client, next)] + b[1..]
    else WriteLines(b, 0, |b| - 1, job.client, next)
  }

  /** A line inserted below a block that opens and closes on one line falls outside the block. */
  ghost function RewriteDoc(job: Job, doc: Doc, e: Entry): (r: Doc)
    requires ValidDoc(doc, e) && AllBlocksState(job, doc)
  {
    match doc
    case End => End
    case Plain(line, rest) => Plain(line, RewriteDoc(job, rest, Step(e, line)))
    case Block(b, rest) =>
      var rest' := RewriteDoc(job, rest, e.(id := ""));
      match BlockNext(job, b, e)
      case None => Block(b, rest')
      case Some(next) =>
        if BlockImplies(job, b) && |b| == 1 then Block(b, Plain(Inserted(job.client, next), rest'))
        else Block(WriteBlock(job, b, next), rest')
  }

  /** The change to a block is the same wherever the block stands. */
  lemma {:induction false} ApplyLocal(job: Job, pre: seq<Line>, b: seq<Line>, post: seq<Line>, e: Entry, next: string)
    requires b != []
    ensures ApplyChange(pre + b + post, Change(BlockRow(job.defaults, b, |pre|, e), job.client, next))
         == pre + WriteBlock(job, b, next) + post
  {
    hide StatesOf, ImpliedOf, TokensOf, WriteLines;
    var lines := pre + b + post;
    if BlockImplies(job, b) {
      InsertLocal(pre, b, post, Inserted(job.client, next));
    } else {
      WriteLocal(pre, b, post, 0, job.client, next);
    }
  }

  lemma {:induction false} InsertLocal(pre: seq<Line>, b: seq<Line>, post: seq<Line>, line: Line)
    requires b != []
    ensures (pre + b + post)[..|pre| + 1] + [line] + (pre + b + post)[|pre| + 1..]
            == pre + ([b[0], line] + b[1..]) + post
  {
  }

  lemma {:induction false} WriteLocal(pre: seq<Line>, b: seq<Line>, post: seq<Line>, i: nat, client: string,
                                      next: string)
    requires b != [] && i <= |b|
    ensures WriteLines(pre + b + post, |pre| + i, |pre| + |b| - 1, client, next)
         == pre + WriteLines(b, i, |b| - 1, client, next) + post
    decreases |b| - i
  {
    hide WriteToks, LineMatches;
    if i < |b| {
      assert (pre + b + post)[|pre| + i] == b[i];
      WriteLocal(pre, b, post, i + 1, client, next);
    }
  }

  lemma {:induction false} ApplyChangesThen(lines: seq<Line>, cs: seq<Change>, c: Change)
    requires InRange(cs, |lines|) && c.row.line <= c.row.endLine < |lines|
    ensures |ApplyChanges(lines, cs)| >= |lines|
    ensures ApplyChanges(lines, cs + [c]) == ApplyChange(ApplyChanges(lines, cs), c)
    decreases |cs|
  {
    hide ApplyChange;
    if cs == [] {
      assert cs + [c] == [c] && [c][1..] == [];
    } else {
      assert (cs + [c])[0] == cs[0] && (cs + [c])[1..] == cs[1..] + [c];
      ApplyChangesThen(ApplyChange(lines, cs[0]), cs[1..], c);
    }
  }

  lemma {:induction false} AllStateCons(row: Row, rows: seq<Row>, client: string)
    ensures AllState([row] + rows, client) <==> client in row.states && AllState(rows, client)
  {
    if AllState([row] + rows, client) {
      assert ([row] + rows)[0] == row;
      forall k | 0 <= k < |rows|
        ensures client in rows[k].states
      {
        assert ([row] + rows)[k + 1] == rows[k];
      }
    }
  }

  lemma {:induction false} StatesAgree(job: Job, doc: Doc, base: nat, e: Entry)
    requires ValidDoc(doc, e)
    ensures AllBlocksState(job, doc) <==> AllState(ReadDoc(job.defaults, doc, base, e), job.client)
    decreases doc
  {
    hide StatesOf, ImpliedOf, IsBlock;
    match doc
    case End =>
    case Plain(line, rest) => StatesAgree(job, rest, base + 1, Step(e, line));
    case Block(b, rest) =>
      StatesAgree(job, rest, base + |b|, e.(id := ""));
      AllStateCons(BlockRow(job.defaults, b, base, e), ReadDoc(job.defaults, rest, base + |b|, e.(id := "")),
                   job.client);
  }

  /** The changes that a document needs, from the last block up. */
  ghost function DocChanges(job: Job, doc: Doc, base: nat, e: Entry): (cs: seq<Change>)
    requires ValidDoc(doc, e) && AllBlocksState(job, doc)
  {
    match doc
    case End => []
    case Plain(line, rest) => DocChanges(job, rest, base + 1, Step(e, line))
    case Block(b, rest) =>
      DocChanges(job, rest, base + |b|, e.(id := ""))
      + (match BlockNext(job, b, e)
         case None => []
         case Some(next) => [Change(BlockRow(job.defaults, b, base, e), job.client, next)])
  }

  lemma {:induction false} ChangesOfDoc(job: Job, doc: Doc, base: nat, e: Entry)
    requires ValidDoc(doc, e) && AllState(ReadDoc(job.defaults, doc, base, e), job.client)
    ensures AllBlocksState(job, doc)
    ensures ChangesUp(ReadDoc(job.defaults, doc, base, e), job.client, job.called) == DocChanges(job, doc, base, e)
    decreases doc
  {
    hide StatesOf, ImpliedOf, IsBlock, NextState;
    StatesAgree(job, doc, base, e);
    match doc
    case End =>
    case Plain(line, rest) => ChangesOfDoc(job, rest, base + 1, Step(e, line));
    case Block(b, rest) =>
      var row, rows := BlockRow(job.defaults, b, base, e), ReadDoc(job.defaults, rest, base + |b|, e.(id := ""));
      AllStateCons(row, rows, job.client);
      ChangesOfDoc(job, rest, base + |b|, e.(id := ""));
      assert ([row] + rows)[1..] == rows;
  }

  /** The changes, each made at a line number taken before any of them, rewrite each block where it stands. */
  lemma {:induction false} ApplyIsRewrite(job: Job, pre: seq<Line>, doc: Doc, e: Entry)
    requires ValidDoc(doc, e) && AllBlocksState(job, doc)
    ensures InRange(DocChanges(job, doc, |pre|, e), |pre| + |Flatten(doc)|)
    ensures ApplyChanges(pre + Flatten(doc), DocChanges(job, doc, |pre|, e)) == pre + Flatten(RewriteDoc(job, doc, e))
    decreases doc
  {
    hide StatesOf, ImpliedOf, IsBlock, NextState, ApplyChange, BlockImplies, WriteBlock, InRange, BlockNext, BlockRow;
    ChangesInRange(job, doc, |pre|, e);
    match doc
    case End =>
    case Plain(line, rest) =>
      ApplyIsRewrite(job, pre + [line], rest, Step(e, line));
      Reassociate(pre, [line], Flatten(rest));
      Reassociate(pre, [line], Flatten(RewriteDoc(job, rest, Step(e, line))));
    case Block(b, rest) =>
      ApplyIsRewrite(job, pre + b, rest, e.(id := ""));
      Reassociate(pre, b, Flatten(rest));
      ApplyBlock(job, pre, b, rest, e, DocChanges(job, rest, |pre + b|, e.(id := "")),
                 Flatten(RewriteDoc(job, rest, e.(id := ""))));
  }

  lemma {:induction false} ApplyBlock(job: Job, pre: seq<Line>, b: seq<Line>, rest: Doc, e: Entry, cs: seq<Change>,
                                      post: seq<Line>)
    requires ValidDoc(Block(b, rest), e) && AllBlocksState(job, Block(b, rest))
    requires cs == DocChanges(job, rest, |pre| + |b|, e.(id := "")) && InRange(cs, |(pre + b) + Flatten(rest)|)
    requires post == Flatten(RewriteDoc(job, rest, e.(id := "")))
    requires ApplyChanges((pre + b) + Flatten(rest), cs) == (pre + b) + post
    ensures InRange(DocChanges(job, Block(b, rest), |pre|, e), |(pre + b) + Flatten(rest)|)
    ensures ApplyChanges((pre + b) + Flatten(rest), DocChanges(job, Block(b, rest), |pre|, e))
         == pre + Flatten(RewriteDoc(job, Block(b, rest), e))
  {
    hide StatesOf, ImpliedOf, IsBlock, NextState, ApplyChange, ApplyChanges, BlockImplies, WriteBlock, Flatten,
         RewriteDoc, BlockRow;
    FlattenRewritten(job, b, rest, e);
    if BlockNext(job, b, e).None? {
      Reassociate(pre, b, post);
      assert DocChanges(job, Block(b, rest), |pre|, e) == cs + [] == cs;
    } else {
      var next := BlockNext(job, b, e).value;
      BlockRowAt(job, b, |pre|, e);
      ApplyLocal(job, pre, b, post, e, next);
      ApplyLast((pre + b) + Flatten(rest), cs, Change(BlockRow(job.defaults, b, |pre|, e), job.client, next),
                pre, b, post, WriteBlock(job, b, next));
    }
  }

  lemma {:induction false} ApplyLast(lines: seq<Line>, cs: seq<Change>, c: Change, pre: seq<Line>, b: seq<Line>,
                                     post: seq<Line>, w: seq<Line>)
    requires InRange(cs, |lines|) && c.row.line <= c.row.endLine < |lines| && c.row.endLine < |pre + b + post|
    requires ApplyChanges(lines, cs) == (pre + b) + post
    requires ApplyChange(pre + b + post, c) == pre + w + post
    ensures InRange(cs + [c], |lines|)
    ensures ApplyChanges(lines, cs + [c]) == pre + (w + post)
  {
    hide ApplyChange;
    ApplyChangesThen(lines, cs, c);
    Reassociate(pre, w, post);
  }

  lemma {:induction false} Reassociate<T>(x: seq<T>, y: seq<T>, z: seq<T>)
    ensures x + y + z == x + (y + z)
  {
  }

  lemma {:induction false} BlockRowAt(job: Job, b: seq<Line>, base: nat, e: Entry)
    requires b != []
    ensures BlockRow(job.defaults, b, base, e).line == base
            && BlockRow(job.defaults, b, base, e).endLine == base + |b| - 1
  {
    hide StatesOf, ImpliedOf;
  }

  lemma {:induction false} ChangesInRange(job: Job, doc: Doc, base: nat, e: Entry)
    requires ValidDoc(doc, e) && AllBlocksState(job, doc)
    ensures InRange(DocChanges(job, doc, base, e), base + |Flatten(doc)|)
    decreases doc
  {
    hide StatesOf, ImpliedOf, IsBlock, NextState;
    match doc
    case End =>
    case Plain(line, rest) => ChangesInRange(job, rest, base + 1, Step(e, line));
    case Block(b, rest) => ChangesInRange(job, rest, base + |b|, e.(id := ""));
  }

  lemma {:induction false} FlattenRewritten(job: Job, b: seq<Line>, rest: Doc, e: Entry)
    requires ValidDoc(Block(b, rest), e) && AllBlocksState(job, Block(b, rest))
    ensures Flatten(RewriteDoc(job, Block(b, rest), e))
         == (match BlockNext(job, b, e) case None => b case Some(next) => WriteBlock(job, b, next))
          + Flatten(RewriteDoc(job, rest, e.(id := "")))
  {
    hide StatesOf, ImpliedOf, IsBlock, NextState, BlockImplies, WriteLines;
    var next := BlockNext(job, b, e);
    if next.Some? && BlockImplies(job, b) && |b| == 1 {
      assert WriteBlock(job, b, next.value) == b + [Inserted(job.client, next.value)];
    }
  }

  // ----- what a change does to a block's states

  predicate IsKey(t: Tok, client: string) {
    t.Pair? && t.client == client && client != "callers"
  }

  predicate FirstMatch(toks: seq<Tok>, client: string, x: nat) {
    x < |toks| && WriterMatches(toks[x], client) && forall k :: 0 <= k < x ==> !WriterMatches(toks[k], client)
  }

  /** The writer's first match in the block is the key whose value the reader takes: the last one. */
  ghost predicate HitsKey(toks: seq<Tok>, client: string) {
    exists x: nat ::
      FirstMatch(toks, client, x) && IsKey(toks[x], client) && forall k :: x < k < |toks| ==> !IsKey(toks[k], client)
  }

  function Revalued(toks: seq<Tok>, x: nat, next: string): (r: seq<Tok>)
    requires x < |toks| && toks[x].Pair?
  {
    toks[x := Pair(toks[x].client, next, true)]
  }

  lemma {:induction false} WriteToksAt(toks: seq<Tok>, client: string, next: string)
    ensures (forall k :: 0 <= k < |toks| ==> !WriterMatches(toks[k], client)) ==> WriteToks(toks, client, next) == toks
    ensures forall x: nat :: FirstMatch(toks, client, x) ==> WriteToks(toks, client, next) == Revalued(toks, x, next)
  {
    hide EndsWith;
    if toks != [] && !WriterMatches(toks[0], client) {
      WriteToksAt(toks[1..], client, next);
      assert toks == [toks[0]] + toks[1..];
      forall x: nat | FirstMatch(toks, client, x)
        ensures WriteToks(toks, client, next) == Revalued(toks, x, next)
      {
        FirstMatchTail(toks, client, x);
        assert toks[1..][x - 1] == toks[x];
      }
      if forall k :: 0 <= k < |toks| ==> !WriterMatches(toks[k], client) {
        assert forall k :: 0 <= k < |toks[1..]| ==> toks[1..][k] == toks[k + 1];
      }
    }
  }

  lemma {:induction false} FirstMatchTail(toks: seq<Tok>, client: string, x: nat)
    requires FirstMatch(toks, client, x) && !WriterMatches(toks[0], client)
    ensures x > 0 && FirstMatch(toks[1..], client, x - 1)
  {
    hide WriterMatches;
    assert forall k :: 0 <= k < |toks| - 1 ==> toks[1..][k] == toks[k + 1];
  }

  lemma {:induction false} Front<T>(a: seq<T>, c: seq<T>)
    requires c != []
    ensures (a + c)[..|a + c| - 1] == a + c[..|c| - 1] && (a + c)[|a + c| - 1] == c[|c| - 1]
  {
  }

  lemma {:induction false} SpreadIgnoresPairs(defaults: Defaults, a: seq<Tok>, t: Tok, c: seq<Tok>)
    requires t.Pair?
    ensures SpreadStates(defaults, a + [t] + c) == SpreadStates(defaults, a + c)
    decreases |c|
  {
    if c == [] {
      assert a + c == a && (a + [t] + c)[..|a|] == a && (a + [t] + c)[|a|] == t;
    } else {
      var n := |c| - 1;
      Front(a + [t], c);
      Front(a, c);
      SpreadIgnoresPairs(defaults, a, t, c[..n]);
    }
  }

  /** A new value for one key shows exactly when no later pair has the same key. */
  lemma {:induction false} RevaluedStates(base: States, toks: seq<Tok>, x: nat, next: string)
    requires x < |toks| && toks[x].Pair?
    ensures PairStates(base, Revalued(toks, x, next))
         == (if toks[x].client != "callers" && !LaterKey(toks, x) then PairStates(base, toks)[toks[x].client := next]
             else PairStates(base, toks))
    decreases |toks|
  {
    var n := |toks| - 1;
    if x == n {
      assert Revalued(toks, x, next)[..n] == toks[..n];
    } else {
      assert Revalued(toks, x, next)[..n] == Revalued(toks[..n], x, next);
      RevaluedStates(base, toks[..n], x, next);
      assert LaterKey(toks, x) <==> LaterKey(toks[..n], x) || IsKey(toks[n], toks[x].client);
    }
  }

  ghost predicate LaterKey(toks: seq<Tok>, x: nat)
    requires x < |toks| && toks[x].Pair?
  {
    exists k :: x < k < |toks| && IsKey(toks[k], toks[x].client)
  }

  lemma {:induction false} InsertedStates(base: States, a: seq<Tok>, client: string, next: string, c: seq<Tok>)
    requires client != "callers" && forall k :: 0 <= k < |c| ==> !IsKey(c[k], client)
    ensures PairStates(base, a + [Pair(client, next, true)] + c) == PairStates(base, a + c)[client := next]
    decreases |c|
  {
    var t := Pair(client, next, true);
    if c == [] {
      assert a + c == a && (a + [t] + c)[..|a|] == a && (a + [t] + c)[|a|] == t;
    } else {
      var n := |c| - 1;
      Front(a + [t], c);
      Front(a, c);
      assert !IsKey(c[n], client);
      InsertedStates(base, a, client, next, c[..n]);
    }
  }

  lemma {:induction false} TokensConcat(a: seq<Line>, c: seq<Line>)
    ensures TokensOf(a + c) == TokensOf(a) + TokensOf(c)
  {
    if a == [] {
      assert a + c == c;
    } else {
      assert (a + c)[1..] == a[1..] + c && (a + c)[0] == a[0];
      TokensConcat(a[1..], c);
    }
  }

  lemma {:induction false} MatchHead(toks: seq<Tok>, client: string)
    requires toks != []
    ensures HasMatch(toks, client) <==> WriterMatches(toks[0], client) || HasMatch(toks[1..], client)
  {
    hide WriterMatches;
    assert toks == [toks[0]] + toks[1..];
  }

  lemma {:induction false} WriteToksConcat(a: seq<Tok>, c: seq<Tok>, client: string, next: string)
    ensures WriteToks(a + c, client, next)
         == if HasMatch(a, client) then WriteToks(a, client, next) + c else a + WriteToks(c, client, next)
  {
    hide WriterMatches, HasMatch, WriteToks;
    if a == [] {
      NoMatchInNothing(client);
      assert a + c == c && a + WriteToks(c, client, next) == WriteToks(c, client, next);
    } else {
      var h, rest := a[0], a[1..];
      assert (a + c)[1..] == rest + c && (a + c)[0] == h;
      assert a == [h] + rest;
      MatchHead(a, client);
      WriteToksHead(a, client, next);
      WriteToksHead(a + c, client, next);
      WriteToksConcat(rest, c, client, next);
      Reassociate([h], rest, WriteToks(c, client, next));
      Reassociate([h], WriteToks(rest, client, next), c);
      if WriterMatches(h, client) {
        Reassociate([Pair(h.client, next, true)], rest, c);
      }
    }
  }

  lemma {:induction false} WriteToksHead(toks: seq<Tok>, client: string, next: string)
    requires toks != []
    ensures WriterMatches(toks[0], client) ==>
              toks[0].Pair? && WriteToks(toks, client, next) == [Pair(toks[0].client, next, true)] + toks[1..]
    ensures !WriterMatches(toks[0], client)
            ==> WriteToks(toks, client, next) == [toks[0]] + WriteToks(toks[1..], client, next)
  {
  }

  lemma {:induction false} NoMatchInNothing(client: string)
    ensures !HasMatch([], client)
  {
  }

  /** Replacing line by line is replacing in the block's tokens. */
  lemma {:induction false} WriteLinesToks(b: seq<Line>, i: nat, client: string, next: string)
    requires b != [] && i <= |b|
    ensures TokensOf(WriteLines(b, i, |b| - 1, client, next))
            == TokensOf(b[..i]) + WriteToks(TokensOf(b[i..]), client, next)
    decreases |b| - i
  {
    hide WriteToks, HasMatch, TokensOf;
    if i == |b| {
      assert b[..i] == b && b[i..] == [];
      NoToks(client, next);
    } else {
      SplitToks(b, i);
      var x, t, y := TokensOf(b[..i]), b[i].toks, TokensOf(b[i + 1..]);
      WriteToksConcat(t, y, client, next);
      if LineMatches(b[i], client) {
        var w := Line(b[i].tag, WriteToks(t, client, next));
        UpdatedToks(b, i, w);
      } else {
        WriteLinesToks(b, i + 1, client, next);
        Reassociate(x, t, WriteToks(y, client, next));
      }
    }
  }

  lemma {:induction false} NoToks(client: string, next: string)
    ensures WriteToks([], client, next) == [] && TokensOf([]) == []
  {
  }

  lemma {:induction false} SplitToks(b: seq<Line>, i: nat)
    requires i < |b|
    ensures TokensOf(b[i..]) == b[i].toks + TokensOf(b[i + 1..]) && TokensOf(b[..i + 1]) == TokensOf(b[..i]) + b[i].toks
  {
    assert b[i..][1..] == b[i + 1..] && b[..i + 1] == b[..i] + [b[i]] && [b[i]][1..] == [];
    TokensConcat(b[..i], [b[i]]);
    assert TokensOf([b[i]]) == b[i].toks + TokensOf([]) == b[i].toks;
  }

  lemma {:induction false} UpdatedToks(b: seq<Line>, i: nat, w: Line)
    requires i < |b|
    ensures TokensOf(b[i := w]) == TokensOf(b[..i]) + (w.toks + TokensOf(b[i + 1..]))
  {
    assert b[i := w] == b[..i] + ([w] + b[i + 1..]) && ([w] + b[i + 1..])[1..] == b[i + 1..];
    TokensConcat(b[..i], [w] + b[i + 1..]);
  }

  lemma {:induction false} WriteToksScan(toks: seq<Tok>, client: string, next: string, depth: int)
    ensures ScanLine(WriteToks(toks, client, next), depth) == ScanLine(toks, depth)
  {
    hide EndsWith;
    if toks != [] {
      var w := WriteToks(toks, client, next);
      if WriterMatches(toks[0], client) {
        assert w[1..] == toks[1..];
      } else {
        assert w[1..] == WriteToks(toks[1..], client, next);
        WriteToksScan(toks[1..], client, next,
                      match toks[0] case Open => depth + 1 case Close => depth - 1 case _ => depth);
      }
    }
  }

  ghost predicate SameShape(a: seq<Line>, c: seq<Line>, client: string, next: string) {
    |a| == |c| && forall k :: 0 <= k < |a| ==>
      c[k].tag == a[k].tag && (c[k].toks == a[k].toks || c[k].toks == WriteToks(a[k].toks, client, next))
  }

  lemma {:induction false} WriteLinesShape(b: seq<Line>, i: nat, e: nat, client: string, next: string)
    requires e < |b|
    ensures SameShape(b, WriteLines(b, i, e, client, next), client, next)
    decreases e + 1 - i
  {
    hide WriteToks, LineMatches;
    if i <= e && !LineMatches(b[i], client) {
      WriteLinesShape(b, i + 1, e, client, next);
    }
  }

  lemma {:induction false} ClosingSameShape(a: seq<Line>, c: seq<Line>, i: nat, depth: int, client: string,
                                            next: string)
    requires SameShape(a, c, client, next) && i <= |a|
    ensures ClosingFrom(c, i, depth) == ClosingFrom(a, i, depth)
    decreases |a| - i
  {
    hide WriteToks, ScanLine;
    if i < |a| {
      WriteToksScan(a[i].toks, client, next, depth);
      match ScanLine(a[i].toks, depth) {
        case Closed =>
        case Level(d) => ClosingSameShape(a, c, i + 1, d, client, next);
      }
    }
  }

  /** Whether writing to the block changes what the reader then reads. */
  ghost predicate Writable(job: Job, b: seq<Line>) {
    if BlockImplies(job, b) then |b| > 1 && job.client != "callers" else HitsKey(TokensOf(b), job.client)
  }

  lemma {:induction false} RevaluedReads(defaults: Defaults, toks: seq<Tok>, x: nat, next: string)
    requires x < |toks| && toks[x].Pair?
    ensures StatesOf(defaults, Revalued(toks, x, next))
         == (if toks[x].client != "callers" && !LaterKey(toks, x) then StatesOf(defaults, toks)[toks[x].client := next]
             else StatesOf(defaults, toks))
  {
    hide PairStates, SpreadStates, LaterKey;
    var t := Pair(toks[x].client, next, true);
    assert toks == toks[..x] + [toks[x]] + toks[x + 1..] && Revalued(toks, x, next) == toks[..x] + [t] + toks[x + 1..];
    SpreadIgnoresPairs(defaults, toks[..x], toks[x], toks[x + 1..]);
    SpreadIgnoresPairs(defaults, toks[..x], t, toks[x + 1..]);
    RevaluedStates(SpreadStates(defaults, toks), toks, x, next);
  }

  lemma {:induction false} WrittenToks(defaults: Defaults, toks: seq<Tok>, client: string, next: string)
    requires client in StatesOf(defaults, toks)
    ensures var after := StatesOf(defaults, WriteToks(toks, client, next));
            && client in after
            && (if HitsKey(toks, client) then after == StatesOf(defaults, toks)[client := next]
                else after[client] == StatesOf(defaults, toks)[client])
  {
    hide StatesOf, WriterMatches, WriteToks;
    WriteToksAt(toks, client, next);
    if x: nat :| FirstMatch(toks, client, x) {
      MatchIsPair(toks[x], client);
      RevaluedReads(defaults, toks, x, next);
      if HitsKey(toks, client) {
        var y: nat :| FirstMatch(toks, client, y) && IsKey(toks[y], client)
                   && forall k :: y < k < |toks| ==> !IsKey(toks[k], client);
        assert x == y;
      }
    } else {
      NoFirstMatch(toks, client, |toks|);
    }
  }

  lemma {:induction false} MatchIsPair(t: Tok, client: string)
    requires WriterMatches(t, client)
    ensures t.Pair?
  {
  }

  lemma {:induction false} NoFirstMatch(toks: seq<Tok>, client: string, n: nat)
    requires n <= |toks| && forall x: nat :: !FirstMatch(toks, client, x)
    ensures forall k :: 0 <= k < n ==> !WriterMatches(toks[k], client)
  {
    hide WriterMatches;
    if n > 0 {
      NoFirstMatch(toks, client, n - 1);
      assert !FirstMatch(toks, client, n - 1);
    }
  }

  lemma {:induction false} WrittenInPlace(job: Job, b: seq<Line>, next: string)
    requires IsBlock(b) && job.client in StatesOf(job.defaults, TokensOf(b)) && !BlockImplies(job, b)
    ensures var w := WriteBlock(job, b, next);
            && IsBlock(w) && job.client in StatesOf(job.defaults, TokensOf(w))
            && (if Writable(job, b) then
                  StatesOf(job.defaults, TokensOf(w)) == StatesOf(job.defaults, TokensOf(b))[job.client := next]
                else
                  StatesOf(job.defaults, TokensOf(w))[job.client] == StatesOf(job.defaults, TokensOf(b))[job.client])
  {
    hide StatesOf, ImpliedOf, WriteLines, WriteToks, HitsKey;
    WriteLinesToks(b, 0, job.client, next);
    assert b[..0] == [] && b[0..] == b;
    assert TokensOf(WriteBlock(job, b, next)) == [] + WriteToks(TokensOf(b), job.client, next)
           == WriteToks(TokensOf(b), job.client, next);
    WrittenToks(job.defaults, TokensOf(b), job.client, next);
    WriteLinesShape(b, 0, |b| - 1, job.client, next);
    ClosingSameShape(b, WriteBlock(job, b, next), 0, 0, job.client, next);
  }

  lemma {:induction false} WrittenBelow(job: Job, b: seq<Line>, next: string)
    requires IsBlock(b) && BlockImplies(job, b) && |b| > 1 && job.client in StatesOf(job.defaults, TokensOf(b))
    ensures var w := WriteBlock(job, b, next);
            && IsBlock(w)
            && StatesOf(job.defaults, TokensOf(w))
            == (if job.client != "callers" then StatesOf(job.defaults, TokensOf(b))[job.client := next]
                else StatesOf(job.defaults, TokensOf(b)))
  {
    InsertedIsBlock(b, job.client, next);
    InsertedReads(job, b, next);
  }

  lemma {:induction false} InsertedIsBlock(b: seq<Line>, client: string, next: string)
    requires IsBlock(b) && |b| > 1
    ensures IsBlock([b[0], Inserted(client, next)] + b[1..])
  {
    hide ScanLine;
    var w := [b[0], Inserted(client, next)] + b[1..];
    var first := ScanLine(b[0].toks, 0);
    assert first.Level?;
    assert w[2..] == b[1..];
    ClosingShift(b, 1, w, 2, first.depth);
    PairKeepsDepth(client, next, first.depth);
    assert ClosingFrom(w, 0, 0) == ClosingFrom(w, 1, first.depth) == ClosingFrom(w, 2, first.depth);
    assert forall k :: 2 <= k < |w| ==> w[k] == b[k - 1];
  }

  lemma {:induction false} PairKeepsDepth(client: string, next: string, depth: int)
    ensures ScanLine(Inserted(client, next).toks, depth) == Level(depth)
  {
    assert Inserted(client, next).toks[1..] == [];
  }

  lemma {:induction false} ImpliedHasNoPair(job: Job, b: seq<Line>)
    requires BlockImplies(job, b)
    ensures !HasPair(TokensOf(b), job.client)
  {
    hide SpreadStates, HasPair, TokensOf;
  }

  lemma {:induction false} NoKeyBelow(x: seq<Tok>, y: seq<Tok>, client: string)
    requires !HasPair(x + y, client) && client != "callers"
    ensures forall k :: 0 <= k < |y| ==> !IsKey(y[k], client)
  {
    forall k | 0 <= k < |y|
      ensures !IsKey(y[k], client)
    {
      assert (x + y)[|x| + k] == y[k];
    }
  }

  lemma {:induction false} InsertedToks(b: seq<Line>, client: string, next: string)
    requires b != []
    ensures TokensOf([b[0], Inserted(client, next)] + b[1..])
            == b[0].toks + [Pair(client, next, true)] + TokensOf(b[1..])
  {
    var w := [b[0], Inserted(client, next)] + b[1..];
    assert w[1..] == [Inserted(client, next)] + b[1..] && w[1..][1..] == b[1..];
  }

  lemma {:induction false} InsertedReads(job: Job, b: seq<Line>, next: string)
    requires b != [] && BlockImplies(job, b)
    ensures StatesOf(job.defaults, TokensOf([b[0], Inserted(job.client, next)] + b[1..]))
         == (if job.client != "callers" then StatesOf(job.defaults, TokensOf(b))[job.client := next]
             else StatesOf(job.defaults, TokensOf(b)))
  {
    hide PairStates, SpreadStates, BlockImplies, Inserted, IsKey, HasPair;
    var t, x, y := Pair(job.client, next, true), b[0].toks, TokensOf(b[1..]);
    InsertedToks(b, job.client, next);
    SpreadIgnoresPairs(job.defaults, x, t, y);
    if job.client != "callers" {
      ImpliedHasNoPair(job, b);
      NoKeyBelow(x, y, job.client);
      InsertedStates(SpreadStates(job.defaults, x + y), x, job.client, next, y);
    } else {
      CallersIsNoKey(SpreadStates(job.defaults, x + y), x, t, y);
    }
  }

  lemma {:induction false} CallersIsNoKey(base: States, a: seq<Tok>, t: Tok, c: seq<Tok>)
    requires t.Pair? && t.client == "callers"
    ensures PairStates(base, a + [t] + c) == PairStates(base, a + c)
    decreases |c|
  {
    if c == [] {
      assert a + c == a && (a + [t] + c)[..|a|] == a && (a + [t] + c)[|a|] == t;
    } else {
      var n := |c| - 1;
      Front(a + [t], c);
      Front(a, c);
      CallersIsNoKey(base, a, t, c[..n]);
    }
  }

  // ----- one run

  /** A block that a change would not alter as the reader sees it, though it needs one, is what a run cannot fix. */
  ghost predicate DocWritable(job: Job, doc: Doc, e: Entry)
    requires ValidDoc(doc, e) && AllBlocksState(job, doc)
  {
    match doc
    case End => true
    case Plain(line, rest) => DocWritable(job, rest, Step(e, line))
    case Block(b, rest) => (BlockNext(job, b, e).Some? ==> Writable(job, b)) && DocWritable(job, rest, e.(id := ""))
  }

  ghost predicate SameEntries(rows: seq<Row>, rows': seq<Row>) {
    |rows'| == |rows| && forall k :: 0 <= k < |rows| ==>
      rows'[k].id == rows[k].id && rows'[k].method_ == rows[k].method_ && rows'[k].path == rows[k].path
  }

  /** The client's state becomes `migrated` where it calls, `legacy` where it did and does not; no other state moves. */
  ghost function StatesAfter(job: Job, row: Row): (s: States) {
    if job.client !in row.states then row.states
    else
      var called, current := job.called(row.method_, row.path), row.states[job.client];
      row.states[job.client := if called then "migrated" else if current == "migrated" then "legacy" else current]
  }

  ghost predicate OnlyTheClientMoved(job: Job, rows: seq<Row>, rows': seq<Row>) {
    |rows'| == |rows| && forall k :: 0 <= k < |rows| ==> rows'[k].states == StatesAfter(job, rows[k])
  }

  /** A rewritten block is read as the same entry, and settled exactly when it could be written to. */
  lemma {:induction false} RewriteReads(job: Job, doc: Doc, base: nat, base': nat, e: Entry)
    requires ValidDoc(doc, e) && AllBlocksState(job, doc)
    ensures var doc' := RewriteDoc(job, doc, e);
            && ValidDoc(doc', e) && AllBlocksState(job, doc')
            && SameEntries(ReadDoc(job.defaults, doc, base, e), ReadDoc(job.defaults, doc', base', e))
            && (DocChanges(job, doc', base', e) == [] <==> DocWritable(job, doc, e))
            && (DocWritable(job, doc, e) ==>
                  OnlyTheClientMoved(job, ReadDoc(job.defaults, doc, base, e), ReadDoc(job.defaults, doc', base', e)))
    decreases doc
  {
    hide StatesOf, ImpliedOf, IsBlock, NextState, BlockImplies, WriteBlock, Writable, SameEntries, OnlyTheClientMoved;
    match doc
    case End => EmptyRelated(job);
    case Plain(line, rest) => RewriteReads(job, rest, base + 1, base' + 1, Step(e, line));
    case Block(b, rest) =>
      var e' := e.(id := "");
      var single := BlockNext(job, b, e).Some? && BlockImplies(job, b) && |b| == 1;
      var w := if BlockNext(job, b, e).None? || single then b else WriteBlock(job, b, BlockNext(job, b, e).value);
      var after := base' + |w| + if single then 1 else 0;
      RewriteReads(job, rest, base + |b|, after, e');
      BlockAfter(job, b, w, e);
      ConsRelated(job, BlockRow(job.defaults, b, base, e), BlockRow(job.defaults, w, base', e),
                  ReadDoc(job.defaults, rest, base + |b|, e'),
                  ReadDoc(job.defaults, RewriteDoc(job, rest, e'), after, e'));
  }

  lemma {:induction false} EmptyRelated(job: Job)
    ensures SameEntries([], []) && OnlyTheClientMoved(job, [], [])
  {
  }

  lemma {:induction false} ConsRelated(job: Job, row: Row, row': Row, rows: seq<Row>, rows': seq<Row>)
    requires row'.id == row.id && row'.method_ == row.method_ && row'.path == row.path
    ensures SameEntries(rows, rows') ==> SameEntries([row] + rows, [row'] + rows')
    ensures row'.states == StatesAfter(job, row) && OnlyTheClientMoved(job, rows, rows')
        ==> OnlyTheClientMoved(job, [row] + rows, [row'] + rows')
  {
    hide StatesAfter;
  }

  lemma {:induction false} Settled(current: string, called: bool)
    ensures match NextState(current, called) case None => true case Some(next) => NextState(next, called).None?
  {
  }

  /** `w` is what a run makes of block `b`. */
  lemma {:induction false} BlockAfter(job: Job, b: seq<Line>, w: seq<Line>, e: Entry)
    requires IsBlock(b) && job.client in StatesOf(job.defaults, TokensOf(b))
    requires match BlockNext(job, b, e)
             case None => w == b
             case Some(next) => w == if BlockImplies(job, b) && |b| == 1 then b else WriteBlock(job, b, next)
    ensures w != [] && IsBlock(w) && job.client in StatesOf(job.defaults, TokensOf(w))
    ensures BlockNext(job, w, e).None? <==> (BlockNext(job, b, e).Some? ==> Writable(job, b))
    ensures (BlockNext(job, b, e).Some? ==> Writable(job, b)) ==>
              StatesOf(job.defaults, TokensOf(w)) == StatesAfter(job, BlockRow(job.defaults, b, 0, e))
    ensures BlockNext(job, b, e).Some? && !Writable(job, b) ==>
              StatesOf(job.defaults, TokensOf(w))[job.client] == StatesOf(job.defaults, TokensOf(b))[job.client]
  {
    hide StatesOf, ImpliedOf, NextState, BlockImplies, WriteBlock, HitsKey, ClosingFrom;
    NextIsOwed(StatesOf(job.defaults, TokensOf(b))[job.client], job.called(e.method_, e.path));
    if next :| BlockNext(job, b, e) == Some(next) {
      Settled(StatesOf(job.defaults, TokensOf(b))[job.client], job.called(e.method_, e.path));
      if !BlockImplies(job, b) {
        WrittenInPlace(job, b, next);
      } else if |b| > 1 {
        WrittenBelow(job, b, next);
      }
    }
  }

  /** Rows are read in the order of their lines, and lie within the file. */
  ghost predicate Ascending(rows: seq<Row>, i: nat, n: nat) {
    && (forall k :: 0 <= k < |rows| ==> i <= rows[k].line <= rows[k].endLine < n)
    && forall j, k :: 0 <= j < k < |rows| ==> rows[j].line < rows[k].line
  }

  lemma {:induction false} RowsAscend(defaults: Defaults, lines: seq<Line>, i: nat, id: string, m: string, p: string)
    requires i <= |lines|
    ensures Ascending(RowsFrom(defaults, lines, i, id, m, p), i, |lines|)
    decreases |lines| - i
  {
    hide RowAt, ClosingFrom, Ascending;
    AscendingWider(RowsFrom(defaults, lines, i, id, m, p), i, |lines|);
    if i < |lines| {
      match lines[i].tag {
        case IdLine(x) => RowsAscend(defaults, lines, i + 1, x, "", "");
        case MethodLine(x) => RowsAscend(defaults, lines, i + 1, id, x, p);
        case PathLine(x) => RowsAscend(defaults, lines, i + 1, id, m, x);
        case OtherLine => RowsAscend(defaults, lines, i + 1, id, m, p);
        case CallersLine =>
          RowsAscend(defaults, lines, i + 1, id, m, p);
          RowsAscend(defaults, lines, i + 1, "", m, p);
          if end :| id != "" && ClosingFrom(lines, i, 0) == Some(end) {
            RowAtLies(defaults, lines, i, end, id, m, p);
            AscendingThen(RowAt(defaults, lines, i, end, id, m, p), RowsFrom(defaults, lines, i + 1, "", m, p),
                          i, |lines|);
          }
      }
    }
  }

  lemma {:induction false} RowAtLies(defaults: Defaults, lines: seq<Line>, i: nat, e: nat, id: string, m: string,
                                     p: string)
    requires i <= e < |lines|
    ensures RowAt(defaults, lines, i, e, id, m, p).line == i && RowAt(defaults, lines, i, e, id, m, p).endLine == e
  {
    hide StatesOf, ImpliedOf, TokensOf;
  }

  lemma {:induction false} AscendingWider(rows: seq<Row>, i: nat, n: nat)
    ensures Ascending(rows, i + 1, n) || rows == [] ==> Ascending(rows, i, n)
  {
  }

  lemma {:induction false} AscendingThen(row: Row, rows: seq<Row>, i: nat, n: nat)
    requires row.line == i && i <= row.endLine < n && Ascending(rows, i + 1, n)
    ensures Ascending([row] + rows, i, n)
  {
  }

  /** So writing from the last row up is writing in descending order of line. */
  lemma {:induction false} ChangesDescend(rows: seq<Row>, i: nat, n: nat, client: string,
                                          called: (string, string) -> bool)
    requires Ascending(rows, i, n) && AllState(rows, client)
    ensures Descending(ChangesUp(rows, client, called), i, n)
    decreases |rows|
  {
    hide NextState, Descending, ChangeOf;
    if rows == [] {
      EmptyDescends(i, n);
    } else {
      var c := ChangeOf(rows[0], client, called);
      AscendingTail(rows, i, n);
      ChangesDescend(rows[1..], rows[0].line + 1, n, client, called);
      ChangeKeepsRow(rows[0], client, called);
      DescendingThen(ChangesUp(rows[1..], client, called), c, rows[0].line, i, n);
    }
  }

  /** Each change lies below the ones made before it. */
  ghost predicate Descending(cs: seq<Change>, i: nat, n: nat) {
    && InRange(cs, n)
    && (forall k :: 0 <= k < |cs| ==> i <= cs[k].row.line)
    && forall j, k :: 0 <= j < k < |cs| ==> cs[k].row.line < cs[j].row.line
  }

  lemma {:induction false} EmptyDescends(i: nat, n: nat)
    ensures Descending([], i, n)
  {
  }

  lemma {:induction false} AscendingTail(rows: seq<Row>, i: nat, n: nat)
    requires rows != [] && Ascending(rows, i, n)
    ensures i <= rows[0].line <= rows[0].endLine < n && Ascending(rows[1..], rows[0].line + 1, n)
  {
  }

  lemma {:induction false} ChangeKeepsRow(row: Row, client: string, called: (string, string) -> bool)
    requires client in row.states
    ensures ChangeOf(row, client, called).Some? ==> ChangeOf(row, client, called).value.row == row
  {
    hide NextState;
  }

  lemma {:induction false} DescendingThen(cs: seq<Change>, c: Option<Change>, line: nat, i: nat, n: nat)
    requires i <= line && Descending(cs, line + 1, n)
    requires c.Some? ==> c.value.row.line == line && line <= c.value.row.endLine < n
    ensures Descending(cs + (if c.Some? then [c.value] else []), i, n)
  {
  }

  function Rows(job: Job, lines: seq<Line>): (rows: seq<Row>) {
    RowsFrom(job.defaults, lines, 0, "", "", "")
  }

  /** The changes that the manifest demands of the file. */
  function Demanded(job: Job, lines: seq<Line>): (cs: seq<Change>)
    requires AllState(Rows(job, lines), job.client)
  {
    ChangesUp(Rows(job, lines), job.client, job.called)
  }

  function Reconciled(job: Job, lines: seq<Line>): (out: seq<Line>)
    requires AllState(Rows(job, lines), job.client)
  {
    RowsAscend(job.defaults, lines, 0, "", "", "");
    ChangesDescend(Rows(job, lines), 0, |lines|, job.client, job.called);
    ApplyChanges(lines, Demanded(job, lines))
  }

  /** Entries and blocks as the documents have them, every row stating something for the client. */
  ghost predicate ExpectedShape(job: Job, lines: seq<Line>, doc: Doc) {
    lines == Flatten(doc) && ValidDoc(doc, NO_ENTRY) && AllState(Rows(job, lines), job.client)
  }

  ghost predicate RowWritable(job: Job, lines: seq<Line>, row: Row) {
    row.line <= row.endLine < |lines| && Writable(job, lines[row.line..row.endLine + 1])
  }

  /** The row is migrated and not called, or called and not migrated. */
  ghost predicate Demands(job: Job, row: Row) {
    job.client in row.states && !(row.states[job.client] == "migrated" <==> job.called(row.method_, row.path))
  }

  lemma {:induction false} ShapeFacts(job: Job, lines: seq<Line>, doc: Doc)
    requires ExpectedShape(job, lines, doc)
    ensures AllBlocksState(job, doc) && Rows(job, lines) == ReadDoc(job.defaults, doc, 0, NO_ENTRY)
    ensures Demanded(job, lines) == DocChanges(job, doc, 0, NO_ENTRY)
    ensures Reconciled(job, lines) == Flatten(RewriteDoc(job, doc, NO_ENTRY))
  {
    hide RowsFrom, ReadDoc, IsBlock, RewriteDoc, DocChanges;
    assert [] + lines == lines;
    ReadIsDoc(job.defaults, [], doc, NO_ENTRY);
    ChangesOfDoc(job, doc, 0, NO_ENTRY);
    ApplyIsRewrite(job, [], doc, NO_ENTRY);
    assert [] + Flatten(RewriteDoc(job, doc, NO_ENTRY)) == Flatten(RewriteDoc(job, doc, NO_ENTRY));
  }

  /** What is read of a row afterwards: all that was due, or the client's old state where it could not be written. */
  ghost predicate RowMoved(job: Job, lines: seq<Line>, row: Row, row': Row) {
    if Demands(job, row) && !RowWritable(job, lines, row) then
      job.client in row.states && job.client in row'.states && row'.states[job.client] == row.states[job.client]
    else row'.states == StatesAfter(job, row)
  }

  ghost predicate RowsMoved(job: Job, lines: seq<Line>, rows: seq<Row>, rows': seq<Row>) {
    |rows'| == |rows| && forall k :: 0 <= k < |rows| ==> RowMoved(job, lines, rows[k], rows'[k])
  }

  lemma {:induction false} RewriteMoves(job: Job, pre: seq<Line>, doc: Doc, base: nat, e: Entry)
    requires ValidDoc(doc, e) && AllBlocksState(job, doc)
    ensures ValidDoc(RewriteDoc(job, doc, e), e)
    ensures RowsMoved(job, pre + Flatten(doc), ReadDoc(job.defaults, doc, |pre|, e),
                      ReadDoc(job.defaults, RewriteDoc(job, doc, e), base, e))
    decreases doc
  {
    hide StatesOf, ImpliedOf, IsBlock, NextState, BlockImplies, WriteBlock, Writable, RowMoved, RowsMoved, BlockRow;
    RewriteReads(job, doc, |pre|, base, e);
    match doc
    case End => NoneMoved(job, pre + Flatten(doc));
    case Plain(line, rest) =>
      RewriteMoves(job, pre + [line], rest, base + 1, Step(e, line));
      Reassociate(pre, [line], Flatten(rest));
    case Block(b, rest) =>
      var e' := e.(id := "");
      var single := BlockNext(job, b, e).Some? && BlockImplies(job, b) && |b| == 1;
      var w := if BlockNext(job, b, e).None? || single then b else WriteBlock(job, b, BlockNext(job, b, e).value);
      var after := base + |w| + if single then 1 else 0;
      RewriteMoves(job, pre + b, rest, after, e');
      Reassociate(pre, b, Flatten(rest));
      BlockMoved(job, pre, b, w, Flatten(rest), base, e);
      MovedCons(job, pre + b + Flatten(rest), BlockRow(job.defaults, b, |pre|, e), BlockRow(job.defaults, w, base, e),
                ReadDoc(job.defaults, rest, |pre + b|, e'),
                ReadDoc(job.defaults, RewriteDoc(job, rest, e'), after, e'));
  }

  lemma {:induction false} NoneMoved(job: Job, lines: seq<Line>)
    ensures RowsMoved(job, lines, [], [])
  {
  }

  lemma {:induction false} MovedCons(job: Job, lines: seq<Line>, row: Row, row': Row, rows: seq<Row>, rows': seq<Row>)
    requires RowMoved(job, lines, row, row') && RowsMoved(job, lines, rows, rows')
    ensures RowsMoved(job, lines, [row] + rows, [row'] + rows')
  {
    hide RowMoved;
  }

  lemma {:induction false} BlockMoved(job: Job, pre: seq<Line>, b: seq<Line>, w: seq<Line>, post: seq<Line>, base: nat,
                                      e: Entry)
    requires b != [] && IsBlock(b) && job.client in StatesOf(job.defaults, TokensOf(b))
    requires match BlockNext(job, b, e)
             case None => w == b
             case Some(next) => w == if BlockImplies(job, b) && |b| == 1 then b else WriteBlock(job, b, next)
    ensures w != []
    ensures RowMoved(job, pre + b + post, BlockRow(job.defaults, b, |pre|, e), BlockRow(job.defaults, w, base, e))
  {
    hide StatesOf, ImpliedOf, NextState, BlockImplies, WriteBlock, Writable, IsBlock, TokensOf, Demands, RowWritable;
    BlockAfter(job, b, w, e);
    OneRow(job, pre, b, post, e);
  }

  /** Nothing is demanded of the file exactly when each row is migrated if and only if it is called. */
  lemma {:induction false} DemandsNothingIff(job: Job, rows: seq<Row>)
    requires AllState(rows, job.client)
    ensures ChangesUp(rows, job.client, job.called) == []
       <==> forall k :: 0 <= k < |rows| ==>
              (rows[k].states[job.client] == "migrated" <==> job.called(rows[k].method_, rows[k].path))
  {
    hide NextState;
    if rows != [] {
      DemandsNothingIff(job, rows[1..]);
      NextIsOwed(rows[0].states[job.client], job.called(rows[0].method_, rows[0].path));
      assert rows == [rows[0]] + rows[1..];
    }
  }

  /**
   * After one run the same entries are read. A row that could be written to is `migrated` if
   * it is called, `legacy` if it was migrated and is not, and as it was otherwise; no other
   * client's state moved there. Nothing is demanded any more, which is to say that each row is
   * migrated if and only if it is called, exactly when every row in need could be written to.
   */
  lemma {:induction false} OneRunReconciles(job: Job, lines: seq<Line>, doc: Doc)
    requires ExpectedShape(job, lines, doc)
    ensures AllState(Rows(job, Reconciled(job, lines)), job.client)
    ensures SameEntries(Rows(job, lines), Rows(job, Reconciled(job, lines)))
    ensures RowsMoved(job, lines, Rows(job, lines), Rows(job, Reconciled(job, lines)))
    ensures var rows := Rows(job, Reconciled(job, lines));
            Demanded(job, Reconciled(job, lines)) == [] <==>
              forall k :: 0 <= k < |rows| ==>
                (rows[k].states[job.client] == "migrated" <==> job.called(rows[k].method_, rows[k].path))
    ensures Demanded(job, Reconciled(job, lines)) == []
       <==> forall row :: row in Rows(job, lines) && Demands(job, row) ==> RowWritable(job, lines, row)
    ensures Demanded(job, Reconciled(job, lines)) == [] ==>
              && OnlyTheClientMoved(job, Rows(job, lines), Rows(job, Reconciled(job, lines)))
              && Reconciled(job, Reconciled(job, lines)) == Reconciled(job, lines)
  {
    hide Rows, RewriteDoc, DocChanges, ReadDoc, DocWritable, SameEntries, OnlyTheClientMoved, IsBlock, Demands,
         RowWritable, RowsMoved, ChangesUp;
    ShapeFacts(job, lines, doc);
    RewriteReads(job, doc, 0, 0, NO_ENTRY);
    var doc' := RewriteDoc(job, doc, NO_ENTRY);
    ReadsAgain(job, Flatten(doc'), doc');
    ShapeFacts(job, Flatten(doc'), doc');
    WritableRows(job, [], doc, NO_ENTRY);
    RewriteMoves(job, [], doc, 0, NO_ENTRY);
    DemandsNothingIff(job, Rows(job, Flatten(doc')));
    assert [] + Flatten(doc) == lines;
  }

  lemma {:induction false} ReadsAgain(job: Job, lines: seq<Line>, doc: Doc)
    requires lines == Flatten(doc) && ValidDoc(doc, NO_ENTRY) && AllBlocksState(job, doc)
    ensures ExpectedShape(job, lines, doc) && AllState(Rows(job, lines), job.client)
  {
    hide RowsFrom, IsBlock, ReadDoc;
    assert [] + lines == lines;
    ReadIsDoc(job.defaults, [], doc, NO_ENTRY);
    StatesAgree(job, doc, 0, NO_ENTRY);
  }

  ghost predicate RowsWritable(job: Job, lines: seq<Line>, rows: seq<Row>) {
    forall row :: row in rows && Demands(job, row) ==> RowWritable(job, lines, row)
  }

  lemma {:induction false} WritableRows(job: Job, pre: seq<Line>, doc: Doc, e: Entry)
    requires ValidDoc(doc, e) && AllBlocksState(job, doc)
    ensures DocWritable(job, doc, e) <==> RowsWritable(job, pre + Flatten(doc), ReadDoc(job.defaults, doc, |pre|, e))
    decreases doc
  {
    hide StatesOf, ImpliedOf, IsBlock, NextState, Writable, Demands, RowWritable, RowsWritable, BlockRow;
    match doc
    case End => NoRows(job, pre + Flatten(doc));
    case Plain(line, rest) =>
      WritableRows(job, pre + [line], rest, Step(e, line));
      Reassociate(pre, [line], Flatten(rest));
    case Block(b, rest) =>
      var rows := ReadDoc(job.defaults, rest, |pre + b|, e.(id := ""));
      WritableRows(job, pre + b, rest, e.(id := ""));
      Reassociate(pre, b, Flatten(rest));
      OneRow(job, pre, b, Flatten(rest), e);
      RowsWritableCons(job, pre + b + Flatten(rest), BlockRow(job.defaults, b, |pre|, e), rows);
  }

  lemma {:induction false} NoRows(job: Job, lines: seq<Line>)
    ensures RowsWritable(job, lines, [])
  {
  }

  lemma {:induction false} RowsWritableCons(job: Job, lines: seq<Line>, row: Row, rows: seq<Row>)
    ensures RowsWritable(job, lines, [row] + rows)
       <==> (Demands(job, row) ==> RowWritable(job, lines, row)) && RowsWritable(job, lines, rows)
  {
    hide Demands, RowWritable;
    assert forall r :: r in [row] + rows <==> r == row || r in rows;
  }

  lemma {:induction false} OneRow(job: Job, pre: seq<Line>, b: seq<Line>, post: seq<Line>, e: Entry)
    requires b != [] && job.client in StatesOf(job.defaults, TokensOf(b))
    ensures Demands(job, BlockRow(job.defaults, b, |pre|, e)) <==> BlockNext(job, b, e).Some?
    ensures RowWritable(job, pre + b + post, BlockRow(job.defaults, b, |pre|, e)) <==> Writable(job, b)
  {
    hide StatesOf, ImpliedOf, Writable, NextState, TokensOf;
    var lines, row := pre + b + post, BlockRow(job.defaults, b, |pre|, e);
    NextIsOwed(StatesOf(job.defaults, TokensOf(b))[job.client], job.called(e.method_, e.path));
    assert row.line == |pre| && row.endLine + 1 == |pre| + |b|;
    assert lines[row.line..row.endLine + 1] == b;
  }

  /** How a run on one manifest ends. */
  datatype Ending =
    | Unread(ids: seq<string>)     // entries the reader could not see
    | Stateless                    // a row states nothing for the client
    | Orphaned(keys: set<string>)  // calls that match no row
    | Written(lines: seq<Line>)

  /** The calls of the manifest that no row answers. */
  function Orphans(key: (string, string) -> string, keys: set<string>, rows: seq<Row>): (os: set<string>) {
    keys - set k | 0 <= k < |rows| :: key(rows[k].method_, rows[k].path)
  }

  /** The whole run on one manifest, whose calls are known by their keys. */
  method ReconcileContract(job: Job, key: (string, string) -> string, keys: set<string>, lines: seq<Line>)
    returns (out: Ending)
    requires forall m, p :: job.called(m, p) <==> key(m, p) in keys
    ensures var rows := Rows(job, lines);
            var missed := Missed(CountEntries(lines), SeenIds(rows));
            if missed != [] then out == Unread(missed)
            else if !AllState(rows, job.client) then out == Stateless
            else if Orphans(key, keys, rows) != {} then out == Orphaned(Orphans(key, keys, rows))
            else out == Written(Reconciled(job, lines))
  {
    hide RowsFrom, ChangesUp, ApplyChanges, Missed, SeenIds, CountEntries;
    var rows := ReadContractRows(job.defaults, lines);
    var missed := Missed(CountEntries(lines), SeenIds(rows));
    if missed != [] {
      return Unread(missed);
    }
    var cs := DeriveChanges(rows, job.client, job.called);
    if cs.None? {
      return Stateless;
    }
    var orphans := Orphans(key, keys, rows);
    if orphans != {} {
      return Orphaned(orphans);
    }
    RowsAscend(job.defaults, lines, 0, "", "", "");
    ChangesDescend(rows, 0, |lines|, job.client, job.called);
    var written := WriteBack(lines, cs.value);
    out := Written(written);
  }

  // ----- further runs

  /** Token by token the same keys, in the same spelling. */
  ghost predicate SameKeys(a: seq<Tok>, c: seq<Tok>) {
    |a| == |c| && forall k :: 0 <= k < |a| ==>
      c[k] == a[k] || (a[k].Pair? && c[k].Pair? && c[k].client == a[k].client && c[k].exact == a[k].exact)
  }

  lemma {:induction false} WriteKeepsKeys(toks: seq<Tok>, client: string, next: string)
    ensures SameKeys(toks, WriteToks(toks, client, next))
  {
    hide EndsWith;
    if toks != [] && !WriterMatches(toks[0], client) {
      WriteKeepsKeys(toks[1..], client, next);
    }
  }

  lemma {:induction false} SameKeysSameHits(a: seq<Tok>, c: seq<Tok>, client: string)
    requires SameKeys(a, c)
    ensures HasPair(c, client) <==> HasPair(a, client)
    ensures HitsKey(c, client) ==> HitsKey(a, client)
  {
    hide EndsWith;
    if k :| 0 <= k < |a| && a[k].Pair? && a[k].client == client && client != "callers" {
      assert c[k].Pair? && c[k].client == client;
    }
    if k :| 0 <= k < |c| && c[k].Pair? && c[k].client == client && client != "callers" {
      assert a[k].Pair? && a[k].client == client;
    }
    if x: nat :| FirstMatch(c, client, x) && IsKey(c[x], client) && forall k :: x < k < |c| ==> !IsKey(c[k], client) {
      assert FirstMatch(a, client, x) && IsKey(a[x], client);
    }
  }

  lemma {:induction false} SpreadIgnoresValues(defaults: Defaults, a: seq<Tok>, c: seq<Tok>)
    requires SameKeys(a, c)
    ensures SpreadStates(defaults, c) == SpreadStates(defaults, a)
    decreases |a|
  {
    if a != [] {
      var n := |a| - 1;
      SpreadIgnoresValues(defaults, a[..n], c[..n]);
    }
  }

  lemma {:induction false} StuckInPlace(job: Job, b: seq<Line>, next: string)
    requires b != [] && !BlockImplies(job, b) && !HitsKey(TokensOf(b), job.client)
    requires job.client in StatesOf(job.defaults, TokensOf(b))
    ensures !Writable(job, WriteBlock(job, b, next))
  {
    hide HitsKey, SpreadStates, HasPair, SameKeys, WriteToks, WriteLines, StatesOf;
    var w := WriteBlock(job, b, next);
    WriteLinesToks(b, 0, job.client, next);
    assert b[..0] == [] && b[0..] == b;
    assert TokensOf(w) == [] + WriteToks(TokensOf(b), job.client, next) == WriteToks(TokensOf(b), job.client, next);
    WriteKeepsKeys(TokensOf(b), job.client, next);
    SameKeysSameHits(TokensOf(b), TokensOf(w), job.client);
    SpreadIgnoresValues(job.defaults, TokensOf(b), TokensOf(w));
  }

  lemma {:induction false} StuckBelow(job: Job, b: seq<Line>, next: string)
    requires b != [] && BlockImplies(job, b) && job.client == "callers"
    ensures !Writable(job, WriteBlock(job, b, next))
  {
    hide SpreadStates, TokensOf;
    var t := Pair(job.client, next, true);
    InsertedToks(b, job.client, next);
    SplitHeadToks(b);
    SpreadIgnoresPairs(job.defaults, b[0].toks, t, TokensOf(b[1..]));
  }

  lemma {:induction false} SplitHeadToks(b: seq<Line>)
    requires b != []
    ensures TokensOf(b) == b[0].toks + TokensOf(b[1..])
  {
  }

  /** A block that needs a change and cannot be written to still cannot after the run. */
  lemma {:induction false} StuckStays(job: Job, b: seq<Line>, w: seq<Line>, e: Entry)
    requires IsBlock(b) && job.client in StatesOf(job.defaults, TokensOf(b))
    requires BlockNext(job, b, e).Some? && !Writable(job, b)
    requires w == if BlockImplies(job, b) && |b| == 1 then b else WriteBlock(job, b, BlockNext(job, b, e).value)
    ensures w != [] && job.client in StatesOf(job.defaults, TokensOf(w))
    ensures BlockNext(job, w, e).Some? && !Writable(job, w)
  {
    hide StatesOf, NextState, BlockImplies, WriteBlock, HitsKey, ClosingFrom, TokensOf, IsBlock;
    BlockNonEmpty(b);
    BlockAfter(job, b, w, e);
    var next := BlockNext(job, b, e).value;
    if !BlockImplies(job, b) {
      StuckInPlace(job, b, next);
    } else if |b| > 1 {
      StuckBelow(job, b, next);
    }
  }

  lemma {:induction false} StuckDoc(job: Job, doc: Doc, e: Entry)
    requires ValidDoc(doc, e) && AllBlocksState(job, doc) && !DocWritable(job, doc, e)
    ensures ValidDoc(RewriteDoc(job, doc, e), e) && AllBlocksState(job, RewriteDoc(job, doc, e))
    ensures !DocWritable(job, RewriteDoc(job, doc, e), e)
    decreases doc
  {
    hide StatesOf, IsBlock, NextState, BlockImplies, WriteBlock, Writable;
    RewriteReads(job, doc, 0, 0, e);
    match doc
    case Plain(line, rest) => StuckDoc(job, rest, Step(e, line));
    case Block(b, rest) =>
      if BlockNext(job, b, e).Some? && !Writable(job, b) {
        var w := if BlockImplies(job, b) && |b| == 1 then b else WriteBlock(job, b, BlockNext(job, b, e).value);
        BlockNonEmpty(b);
        StuckStays(job, b, w, e);
      } else {
        StuckDoc(job, rest, e.(id := ""));
      }
  }

  lemma {:induction false} BlockNonEmpty(b: seq<Line>)
    ensures IsBlock(b) ==> b != []
  {
  }

  /** The file after `n` runs, if none is refused. */
  ghost function AfterRuns(job: Job, lines: seq<Line>, n: nat): (out: Option<seq<Line>>)
    decreases n
  {
    if n == 0 then Some(lines)
    else if AllState(Rows(job, lines), job.client) then AfterRuns(job, Reconciled(job, lines), n - 1)
    else None
  }

  lemma {:induction false} RunsOfDoc(job: Job, lines: seq<Line>, doc: Doc, n: nat) returns (last: Doc)
    requires ExpectedShape(job, lines, doc)
    ensures AfterRuns(job, lines, n) == Some(Flatten(last)) && ExpectedShape(job, Flatten(last), last)
    ensures AllBlocksState(job, doc) && AllBlocksState(job, last)
    ensures !DocWritable(job, doc, NO_ENTRY) ==> !DocWritable(job, last, NO_ENTRY)
    decreases n
  {
    hide Rows, RewriteDoc, DocWritable, IsBlock, ReadDoc, DocChanges, Reconciled;
    ShapeFacts(job, lines, doc);
    if n == 0 {
      last := doc;
    } else {
      RewriteReads(job, doc, 0, 0, NO_ENTRY);
      var next := RewriteDoc(job, doc, NO_ENTRY);
      ReadsAgain(job, Flatten(next), next);
      last := RunsOfDoc(job, Flatten(next), next, n - 1);
      if !DocWritable(job, doc, NO_ENTRY) {
        StuckDoc(job, doc, NO_ENTRY);
      }
    }
  }

  /**
   * What one run does not settle, no number of runs settles: after any number of runs the
   * manifest demands nothing more if and only if it demands nothing more after one.
   */
  lemma {:induction false} OneRunOrNone(job: Job, lines: seq<Line>, doc: Doc, n: nat)
    requires ExpectedShape(job, lines, doc) && n > 0
    ensures AfterRuns(job, lines, n).Some? && AllState(Rows(job, AfterRuns(job, lines, n).value), job.client)
    ensures AllState(Rows(job, Reconciled(job, lines)), job.client)
    ensures Demanded(job, AfterRuns(job, lines, n).value) == [] <==> Demanded(job, Reconciled(job, lines)) == []
  {
    hide Rows, RewriteDoc, DocWritable, IsBlock, ReadDoc, Reconciled, ExpectedShape, Demanded;
    OneRunReconciles(job, lines, doc);
    var before := RunsOfDoc(job, lines, doc, n - 1);
    ShapeStates(job, Flatten(before), before);
    RunsCompose(job, lines, n - 1);
    SettledIffWritable(job, lines, doc);
    SettledIffWritable(job, Flatten(before), before);
    OneRunReconciles(job, Flatten(before), before);
    if Demanded(job, Reconciled(job, lines)) == [] {
      SettledStays(job, lines, doc, n - 1);
    }
  }

  lemma {:induction false} ShapeStates(job: Job, lines: seq<Line>, doc: Doc)
    requires ExpectedShape(job, lines, doc)
    ensures AllState(Rows(job, lines), job.client) && lines == Flatten(doc)
  {
  }

  lemma {:induction false} RunsCompose(job: Job, lines: seq<Line>, n: nat)
    requires AfterRuns(job, lines, n).Some? && AllState(Rows(job, AfterRuns(job, lines, n).value), job.client)
    ensures AfterRuns(job, lines, n + 1) == Some(Reconciled(job, AfterRuns(job, lines, n).value))
    decreases n
  {
    hide Rows, Reconciled;
    if n > 0 {
      RunsCompose(job, Reconciled(job, lines), n - 1);
    }
  }

  lemma {:induction false} SettledIffWritable(job: Job, lines: seq<Line>, doc: Doc)
    requires ExpectedShape(job, lines, doc)
    ensures ValidDoc(doc, NO_ENTRY) && AllBlocksState(job, doc)
    ensures AllState(Rows(job, Reconciled(job, lines)), job.client)
    ensures Demanded(job, Reconciled(job, lines)) == [] <==> DocWritable(job, doc, NO_ENTRY)
  {
    hide Rows, RewriteDoc, DocChanges, ReadDoc, DocWritable, IsBlock;
    ShapeFacts(job, lines, doc);
    RewriteReads(job, doc, 0, 0, NO_ENTRY);
    var doc' := RewriteDoc(job, doc, NO_ENTRY);
    ReadsAgain(job, Flatten(doc'), doc');
    ShapeFacts(job, Flatten(doc'), doc');
  }

  lemma {:induction false} SettledStays(job: Job, lines: seq<Line>, doc: Doc, n: nat)
    requires ExpectedShape(job, lines, doc) && AllState(Rows(job, Reconciled(job, lines)), job.client)
    requires Demanded(job, Reconciled(job, lines)) == [] && AllState(Rows(job, lines), job.client)
    ensures AfterRuns(job, lines, n + 1) == Some(Reconciled(job, lines))
    decreases n
  {
    hide Rows, Reconciled, Demanded, ExpectedShape;
    OneRunReconciles(job, lines, doc);
    assert AfterRuns(job, lines, 1) == AfterRuns(job, Reconciled(job, lines), 0);
    if n > 0 {
      SettledStays(job, lines, doc, n - 1);
      RunsCompose(job, lines, n);
    }
  }

  // ----- where one run is not enough

  const ALL_PLANNED: Defaults := map["ALL_PLANNED" := map["admin" := "planned"]]

  /** A row carries the implied clients of the block it was read from. */
  lemma {:induction false} RowIsRead(defaults: Defaults, lines: seq<Line>, i: nat, id: string, m: string, p: string,
                                     row: Row)
    requires i <= |lines| && row in RowsFrom(defaults, lines, i, id, m, p)
    ensures row.line <= row.endLine < |lines|
    ensures row.implied == ImpliedOf(defaults, TokensOf(lines[row.line..row.endLine + 1]))
    decreases |lines| - i
  {
    hide ImpliedOf, StatesOf, TokensOf;
    match lines[i].tag
    case IdLine(x) => RowIsRead(defaults, lines, i + 1, x, "", "", row);
    case MethodLine(x) => RowIsRead(defaults, lines, i + 1, id, x, p, row);
    case PathLine(x) => RowIsRead(defaults, lines, i + 1, id, m, x, row);
    case OtherLine => RowIsRead(defaults, lines, i + 1, id, m, p, row);
    case CallersLine =>
      if row in RowsFrom(defaults, lines, i + 1, id, m, p) {
        RowIsRead(defaults, lines, i + 1, id, m, p, row);
      } else if row in RowsFrom(defaults, lines, i + 1, "", m, p) {
        RowIsRead(defaults, lines, i + 1, "", m, p, row);
      }
  }

  /**
   * A block on one line whose state comes from a spread is never reconciled: the inserted
   * override lands below the block, so no number of runs settles the file.
   */
  lemma {:induction false} SingleLineSpreadNeverSettles(job: Job, lines: seq<Line>, doc: Doc, row: Row, n: nat)
    requires ExpectedShape(job, lines, doc) && row in Rows(job, lines) && Demands(job, row)
    requires row.line == row.endLine && job.client in row.implied && n > 0
    ensures AfterRuns(job, lines, n).Some? && AllState(Rows(job, AfterRuns(job, lines, n).value), job.client)
    ensures Demanded(job, AfterRuns(job, lines, n).value) != []
  {
    hide ImpliedOf, RowsFrom, Demanded, Demands, ExpectedShape, Reconciled, AfterRuns, IsBlock;
    RowIsRead(job.defaults, lines, 0, "", "", "", row);
    assert !RowWritable(job, lines, row);
    OneRunReconciles(job, lines, doc);
    OneRunOrNone(job, lines, doc, n);
  }

  /** There are such files: `callers: { ...ALL_PLANNED }` on one line. */
  lemma {:induction false} SingleLineSpreadExists(job: Job, lines: seq<Line>)
    requires job.defaults == ALL_PLANNED && job.client == "admin" && job.called("", "/orders")
    requires lines == [Line(IdLine("a.b"), []), Line(PathLine("/orders"), []),
                       Line(CallersLine, [Open, Spread("ALL_PLANNED"), Close])]
    ensures AllState(Rows(job, lines), "admin")
    ensures Reconciled(job, lines) == lines + [Inserted("admin", "migrated")]
    ensures AllState(Rows(job, Reconciled(job, lines)), "admin") && Demanded(job, Reconciled(job, lines)) != []
  {
    hide *;
    var block := [Line(CallersLine, [Open, Spread("ALL_PLANNED"), Close])];
    var doc := Plain(lines[0], Plain(lines[1], Block(block, End)));
    assert lines == [lines[0], lines[1]] + block;
    PlannedBlock(job, block);
    SingleLineDoc(job, lines, doc, block);
    ReadsAgain(job, lines, doc);
    ShapeFacts(job, lines, doc);
    OneRunReconciles(job, lines, doc);
    WritableRows(job, [], doc, NO_ENTRY);
    assert [] + Flatten(doc) == lines;
    NotAllWritable(job, lines, doc);
  }

  lemma {:induction false} NotAllWritable(job: Job, lines: seq<Line>, doc: Doc)
    requires ExpectedShape(job, lines, doc) && !RowsWritable(job, lines, ReadDoc(job.defaults, doc, 0, NO_ENTRY))
    requires Rows(job, lines) == ReadDoc(job.defaults, doc, 0, NO_ENTRY)
    ensures !(forall row :: row in Rows(job, lines) && Demands(job, row) ==> RowWritable(job, lines, row))
  {
    hide Demands, RowWritable, Rows, ReadDoc;
  }

  lemma {:induction false} SingleLineDoc(job: Job, lines: seq<Line>, doc: Doc, block: seq<Line>)
    requires |lines| == 3 && lines == [lines[0], lines[1]] + block
    requires lines[0].tag == IdLine("a.b") && lines[1].tag == PathLine("/orders")
    requires doc == Plain(lines[0], Plain(lines[1], Block(block, End)))
    requires job.client == "admin" && job.called("", "/orders") && IsBlock(block) && BlockImplies(job, block)
    requires "admin" in StatesOf(job.defaults, TokensOf(block))
            && StatesOf(job.defaults, TokensOf(block))["admin"] == "planned"
    ensures ValidDoc(doc, NO_ENTRY) && AllBlocksState(job, doc) && Flatten(doc) == lines
    ensures Flatten(RewriteDoc(job, doc, NO_ENTRY)) == lines + [Inserted("admin", "migrated")]
    ensures !DocWritable(job, doc, NO_ENTRY)
  {
    hide StatesOf, IsBlock, BlockImplies, TokensOf;
    var e, inner := Entry("a.b", "", "/orders"), Block(block, End);
    assert Step(Step(NO_ENTRY, lines[0]), lines[1]) == e;
    assert Flatten(inner) == block + [] == block;
    assert Flatten(Plain(lines[1], inner)) == [lines[1]] + block;
    assert ValidDoc(inner, e) && AllBlocksState(job, inner);
    assert BlockNext(job, block, e) == Some("migrated");
    var last := Plain(Inserted("admin", "migrated"), End);
    assert RewriteDoc(job, inner, e) == Block(block, last);
    assert Flatten(Block(block, last)) == block + ([Inserted("admin", "migrated")] + []);
    assert Flatten(Plain(lines[1], Block(block, last))) == [lines[1]] + Flatten(Block(block, last));
    assert !DocWritable(job, inner, e);
  }

  lemma {:induction false} PlannedBlock(job: Job, b: seq<Line>)
    requires job.defaults == ALL_PLANNED && job.client == "admin"
    requires b == [Line(CallersLine, [Open, Spread("ALL_PLANNED"), Close])]
    ensures IsBlock(b) && BlockImplies(job, b)
    ensures StatesOf(job.defaults, TokensOf(b)) == map["admin" := "planned"]
  {
    var toks := [Open, Spread("ALL_PLANNED"), Close];
    assert TokensOf(b) == toks + TokensOf(b[1..]) == toks;
    assert toks[..2] == [Open, Spread("ALL_PLANNED")] && toks[..2][..1] == [Open] && [Open][..0] == [];
    var none: seq<Tok> := [];
    assert SpreadStates(ALL_PLANNED, none) == map[];
    assert SpreadStates(ALL_PLANNED, [Open]) == map[];
    assert SpreadStates(ALL_PLANNED, toks[..2]) == map["admin" := "planned"];
    assert SpreadStates(ALL_PLANNED, toks) == map["admin" := "planned"];
    var base: States := map["admin" := "planned"];
    assert PairStates(base, [Open]) == base;
    assert PairStates(base, toks[..2]) == base;
    assert PairStates(base, toks) == base;
    assert toks[1..] == [Spread("ALL_PLANNED"), Close] && toks[1..][1..] == [Close];
    assert ScanLine([Close], 1) == Closed;
    assert ScanLine(toks[1..], 1) == Closed;
  }
}
