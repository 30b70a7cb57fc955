/**
 * When a file whose lines end in `\r` alone is read like the same file with `\n`: a line
 * comment of the scanner ends at `\n` only, so the question is what stands behind the
 * first comment that ends there.
 */
module MacFiles {
  import opened Text
  import opened Scanner
  import opened Masking
  import opened Stripper
  import opened StripLaws
  import opened SqlStatements
  import opened Checksum
  import opened EvenTexts
  import opened Pieces
  import Counterexamples

  // ----- what decides, read off the text with `\n`

  /** The text that is searched for line comments. */
  function BeforeComments(sql: string): (s: string)
    ensures |s| == |sql|
  {
    Pass(Block, Pass(Dollar, sql))
  }

  /** A line comment of the third pass ends at a newline. */
  predicate CommentEndsAtNewline(s: string) {
    exists k :: 0 <= k < |s| && LineEnd(s, k).Some? && LineEnd(s, k).value < |s|
  }

  /** Where the first line comment at or after `i` begins, or the end of the text. */
  function CommentFrom(s: string, i: nat): (k: nat)
    requires i <= |s|
    ensures i <= k <= |s|
    ensures k < |s| ==> LineEnd(s, k).Some?
    ensures forall x :: i <= x < k ==> LineEnd(s, x).None?
    decreases |s| - i
  {
    if i < |s| && LineEnd(s, i).None? then CommentFrom(s, i + 1) else i
  }

  /** From where on the other spelling loses the text: from the first comment that ends at a newline. */
  function LostFrom(sql: string): (x: nat)
    ensures x <= |sql|
  {
    var s := BeforeComments(sql);
    if CommentEndsAtNewline(s) then CommentFrom(s, 0) else |s|
  }

  /** The start of the literal that lies over offset `x`, or `x`; literals are sought from `i` on. */
  function LiteralOver(c: string, i: nat, x: nat): (d: nat)
    requires i <= x <= |c|
    ensures i <= d <= x
    decreases x - i
  {
    if i == x then x else
      match QuoteEnd(c, i)
      case None => LiteralOver(c, i + 1, x)
      case Some(e) => if e > x then i else LiteralOver(c, e, x)
  }

  function CutAt(c: string, x: nat): (t: string)
    ensures |t| == |c|
  {
    BlankAt(c, seq(|c|, j => x <= j))
  }

  function Uncommented(sql: string): (c: string)
    ensures |c| == |sql|
  {
    Pass(Line, BeforeComments(sql))
  }

  /** The masked text, if everything is lost from there on. */
  function CutMask(sql: string): (n: string)
    ensures |n| == |sql|
  {
    Pass(Quote, CutAt(Uncommented(sql), LostFrom(sql)))
  }

  /** Where the two readings part: where the text is lost, or where the literal around that place begins. */
  function PartAt(sql: string): (d: nat)
    ensures d <= |sql|
  {
    LiteralOver(Uncommented(sql), 0, LostFrom(sql))
  }

  // ----- line comments

  /** If any comment ends at a newline, the first does. */
  lemma {:induction false} FirstCommentDecides(s: string)
    ensures var i := CommentFrom(s, 0);
            CommentEndsAtNewline(s) <==> i < |s| && LineEnd(s, i).value < |s|
  {
    var i := CommentFrom(s, 0);
    if k :| 0 <= k < |s| && LineEnd(s, k).Some? && LineEnd(s, k).value < |s| {
      var e := LineEnd(s, k).value;
      NewlineAtClose(s, k + 2);
      if k > i {
        ClosesBefore(s, i + 2, e);
      }
    }
  }

  lemma {:induction false} NewlineAtClose(s: string, k: nat)
    requires k <= |s|
    ensures LineClose(s, k) < |s| ==> s[LineClose(s, k)] == '\n'
    decreases |s| - k
  {
    if k < |s| && s[k] != '\n' {
      NewlineAtClose(s, k + 1);
    }
  }

  lemma {:induction false} ClosesBefore(s: string, k: nat, e: nat)
    requires k <= e < |s| && s[e] == '\n'
    ensures LineClose(s, k) <= e
    decreases e - k
  {
    if s[k] != '\n' {
      ClosesBefore(s, k + 1, e);
    }
  }

  /** Before the first comment nothing is marked; a comment that runs to the end marks everything behind it. */
  lemma {:induction false} CommentMarks(s: string, i: nat, j: nat)
    requires i <= j < |s|
    ensures j < CommentFrom(s, i) ==> !Marked(Line, s, i, j)
    ensures var k := CommentFrom(s, i);
            k < |s| ==> k <= j < LineEnd(s, k).value ==> Marked(Line, s, i, j)
    decreases |s| - i
  {
    hide LineEnd;
    if LineEnd(s, i).None? && i < j {
      CommentMarks(s, i + 1, j);
    }
  }

  lemma {:induction false} SameComments(s: string, b: string, i: nat)
    requires Even(s, b) && i <= |s|
    ensures CommentFrom(b, i) == CommentFrom(s, i)
    decreases |s| - i
  {
    if i < |s| {
      assert LineEnd(b, i).Some? <==> LineEnd(s, i).Some?;
      SameComments(s, b, i + 1);
    }
  }

  lemma {:induction false} EndlessComment(b: string)
    requires '\n' !in b
    ensures !CommentEndsAtNewline(b)
  {
    forall k | 0 <= k < |b| && LineEnd(b, k).Some?
      ensures LineEnd(b, k).value == |b|
    {
      Counterexamples.ClosesAtEnd(b, k + 2);
    }
  }

  /** Without newlines the third pass loses everything from the first comment on. */
  lemma {:induction false} ThirdPass(s: string, b: string, j: nat)
    requires Even(s, b) && '\n' !in b && j < |s|
    ensures var x := if CommentEndsAtNewline(s) then CommentFrom(s, 0) else |s|;
            EvenChar(CutAt(Pass(Line, s), x)[j], Pass(Line, b)[j])
  {
    hide LineEnd, Even, CommentEndsAtNewline, EvenChar, Marked;
    EvenAt(s, b, j);
    SameComments(s, b, 0);
    EndlessComment(b);
    FirstCommentDecides(s);
    FirstCommentDecides(b);
    CommentMarks(s, 0, j);
    CommentMarks(b, 0, j);
    BlanksEven(s[j], b[j]);
  }

  lemma {:induction false} BlanksEven(c: char, d: char)
    ensures EvenChar(BlankChar(c), BlankChar(d)) && EvenChar(BlankChar(BlankChar(c)), BlankChar(d))
  {
  }

  // ----- literals

  lemma {:induction false} QuoteSteps(c: string, x: nat, i: nat, j: nat)
    requires i <= x <= |c| && i <= j < |c| && (x < |c| ==> IsBlank(c[x]))
    ensures var d := LiteralOver(c, i, x);
            && (j < d ==> Marked(Quote, CutAt(c, x), i, j) == Marked(Quote, c, i, j))
            && (d <= j < x ==> Marked(Quote, c, i, j))
    decreases x - i
  {
    hide QuoteClose;
    var t := CutAt(c, x);
    if i < x {
      BlankAtIsBlanking(c, seq(|c|, y => x <= y));
      match MatchEnd(Quote, c, i)
      case None =>
        StaysMatchless(Quote, c, t, i);
        if i < j {
          QuoteSteps(c, x, i + 1, j);
        }
      case Some(e) =>
        if e <= x {
          Local(Quote, c, t, i, e);
          if e <= j {
            QuoteSteps(c, x, e, j);
          }
        }
    }
  }

  lemma {:induction false} LiteralsPart(c: string, x: nat)
    requires x <= |c| && (x < |c| ==> IsBlank(c[x]))
    ensures Parted(Pass(Quote, c), Pass(Quote, CutAt(c, x)), LiteralOver(c, 0, x))
  {
    hide LiteralOver, Marked;
    var t, d := CutAt(c, x), LiteralOver(c, 0, x);
    forall j | 0 <= j < |c|
      ensures j < d ==> Pass(Quote, t)[j] == Pass(Quote, c)[j]
      ensures d <= j ==> IsBlank(Pass(Quote, c)[j]) || IsBlank(Pass(Quote, t)[j])
    {
      QuoteSteps(c, x, 0, j);
    }
  }

  // ----- the two masks

  lemma {:induction false} SpellingsEven(s: string)
    ensures Even(Convert(s, Lf), Convert(s, Cr)) && '\n' !in Convert(s, Cr)
    decreases |s|
  {
    NoLfAfterCr(s);
    if s != [] {
      if |s| >= 2 && s[0] == '\r' && s[1] == '\n' {
        SpellingsEven(s[2..]);
      } else {
        SpellingsEven(s[1..]);
      }
    }
  }

  lemma {:induction false} NoNewlineAppears(v: string)
    requires '\n' !in v
    ensures '\n' !in BeforeComments(v)
  {
    hide Pass;
    PassIsBlanking(Dollar, v);
    PassIsBlanking(Block, Pass(Dollar, v));
    BlankingTransitive(v, Pass(Dollar, v), BeforeComments(v));
  }

  /** What masking makes of the spelling with `\r`. */
  lemma {:induction false} MaskOfMac(u: string, v: string)
    requires Even(u, v) && '\n' !in v
    ensures Even(CutMask(u), Mask(v))
  {
    hide Marks, Even;
    PassEven(Dollar, u, v);
    PassEven(Block, Pass(Dollar, u), Pass(Dollar, v));
    NoNewlineAppears(v);
    ThirdPassWhole(BeforeComments(u), BeforeComments(v));
    PassEven(Quote, CutAt(Uncommented(u), LostFrom(u)), Uncommented(v));
  }

  lemma {:induction false} ThirdPassWhole(s: string, b: string)
    requires Even(s, b) && '\n' !in b
    ensures var x := if CommentEndsAtNewline(s) then CommentFrom(s, 0) else |s|;
            Even(CutAt(Pass(Line, s), x), Pass(Line, b))
  {
    hide CommentEndsAtNewline, CutAt, Pass;
    forall j | 0 <= j < |s| { ThirdPass(s, b, j); }
  }

  lemma {:induction false} MasksPart(u: string)
    ensures Parted(Mask(u), CutMask(u), PartAt(u))
  {
    hide Parted, CommentEndsAtNewline, LineEnd;
    var s, x := BeforeComments(u), LostFrom(u);
    if x < |u| {
      FirstCommentDecides(s);
      CommentMarks(s, 0, x);
    }
    LiteralsPart(Uncommented(u), x);
  }

  // ----- the condition

  ghost predicate SameMatches(u: string, v: string) {
    SpansIn(Mask(v), 0) == SpansIn(Mask(u), 0)
  }

  ghost predicate SameStatements(u: string, v: string) {
    PiecesOf(v) == PiecesOf(u)
  }

  /**
   * For every file, the spellings with `\n` and with `\r` have the same matches exactly
   * when no match of either reading ends behind the place where they part, and the same
   * statements exactly when the statement in progress there goes on to the end of both,
   * or none is and none begins. Nothing changes if no line comment ends at a newline.
   */
  lemma {:induction false} MacCheckoutIsTheSameIff(s: string)
    ensures var u, v := Convert(s, Lf), Convert(s, Cr);
            var m, n, d := Mask(u), CutMask(u), PartAt(u);
            && (SameMatches(u, v) <==> EndBy(SpansIn(m, 0), d) && EndBy(SpansIn(n, 0), d))
            && (SameStatements(u, v) <==> SameTail(m, n, d))
            && (SameStatements(u, v) ==> SameMatches(u, v))
            && (!CommentEndsAtNewline(BeforeComments(u)) ==> SameStatements(u, v))
  {
    hide Convert, Mask, CutMask, Even, Parted, SpansIn, PiecesFrom, SameTail, EndBy, PartAt, CommentEndsAtNewline;
    var u, v := Convert(s, Lf), Convert(s, Cr);
    var m, n, d := Mask(u), CutMask(u), PartAt(u);
    SpellingsEven(s);
    MaskOfMac(u, v);
    MasksPart(u);
    SpansEven(n, Mask(v), 0);
    PiecesEven(n, Mask(v), 0);
    SameMatchesIff(m, n, d);
    SamePiecesIff(m, n, d);
    if SameTail(m, n, d) {
      TailEndsMatches(m, n, d);
      TailBack(m, n, d);
    }
    if !CommentEndsAtNewline(BeforeComments(u)) {
      NothingLost(u);
    }
  }

  lemma {:induction false} TailBack(m: string, n: string, d: nat)
    requires Parted(m, n, d) && SameTail(m, n, d)
    ensures EndBy(SpansIn(n, 0), d)
  {
    hide SpansIn, ControlOf;
    PartedBack(m, n, d);
    LastStartSame(m, n, d);
    SkipSame(m, n, LastStart(m, d), d);
    TailEndsMatches(n, m, d);
  }

  lemma {:induction false} LastStartSame(m: string, n: string, d: nat)
    requires d <= |m| == |n| && forall j :: 0 <= j < d ==> n[j] == m[j]
    ensures LastStart(n, d) == LastStart(m, d)
    decreases d
  {
    if d > 0 {
      LastStartSame(m, n, d - 1);
    }
  }

  lemma {:induction false} SkipSame(m: string, n: string, a: nat, d: nat)
    requires a <= d <= |m| == |n| && forall j :: a <= j < d ==> n[j] == m[j]
    ensures SkipSpace(n, a) < d <==> SkipSpace(m, a) < d
    ensures SkipSpace(m, a) < d ==> SkipSpace(n, a) == SkipSpace(m, a)
    decreases d - a
  {
    if a < d {
      SkipSame(m, n, a + 1, d);
    }
  }

  lemma {:induction false} NothingLost(u: string)
    requires !CommentEndsAtNewline(BeforeComments(u))
    ensures SameTail(Mask(u), CutMask(u), PartAt(u))
  {
    var c := Uncommented(u);
    LiteralOverEnd(c, 0);
    assert CutAt(c, |c|) == c;
  }

  lemma {:induction false} LiteralOverEnd(c: string, i: nat)
    requires i <= |c|
    ensures LiteralOver(c, i, |c|) == |c|
    decreases |c| - i
  {
    hide QuoteEnd;
    if i < |c| {
      match QuoteEnd(c, i)
      case None => LiteralOverEnd(c, i + 1);
      case Some(e) => LiteralOverEnd(c, e);
    }
  }

  // ----- what the same matches and the same statements mean

  /** The same statement, up to the blanks inside the text of work. */
  ghost predicate StmtEven(a: Stmt, b: Stmt) {
    match a
    case Txn(_, _) => b == a
    case Work(text) => b.Work? && Even(text, b.text)
  }

  lemma {:induction false} StatementsMean(u: string, v: string)
    requires Even(u, v) && SameStatements(u, v)
    ensures |Statements(v)| == |Statements(u)|
    ensures forall k :: 0 <= k < |Statements(u)| ==> StmtEven(Statements(u)[k], Statements(v)[k])
  {
    hide Mask, PiecesFrom, Statements, Even;
    StatementsArePieces(u);
    StatementsArePieces(v);
    var ps := PiecesOf(u);
    forall k | 0 <= k < |ps|
      ensures StmtEven(StmtOf(u, ps[k]), StmtOf(v, ps[k]))
    {
      StmtOfEven(u, v, ps[k]);
    }
  }

  lemma {:induction false} StmtOfEven(u: string, v: string, p: Piece)
    requires Even(u, v)
    ensures StmtEven(StmtOf(u, p), StmtOf(v, p))
  {
    if p.start <= p.end <= |u| {
      EvenSlices(u, v, p.start, p.end);
    }
  }

  lemma {:induction false} OneLine(v: string, k: nat)
    requires k <= |v| && '\n' !in v
    ensures NewlinesBefore(v, k) == 0
    decreases k
  {
    if k > 0 {
      OneLine(v, k - 1);
    }
  }

  /** The matched texts are reported alike. */
  lemma {:induction false} ReportsMean(m: string, n: string, w: string, d: nat)
    requires Parted(m, n, d) && Even(n, w) && SpansIn(w, 0) == SpansIn(m, 0) && EndBy(SpansIn(m, 0), d)
    ensures |FindingsIn(w, 0)| == |FindingsIn(m, 0)|
    ensures forall k :: 0 <= k < |FindingsIn(m, 0)| ==>
              FindingsIn(w, 0)[k].statement == FindingsIn(m, 0)[k].statement
    ensures Marks(Control, w) == Marks(Control, m)
  {
    hide MatchEnd, SpansIn, FindingsIn, Reported, NewlinesBefore, Even;
    var spans := SpansIn(m, 0);
    FindingsAreTheMatches(m, 0);
    FindingsAreTheMatches(w, 0);
    EvenSlices(n, w, 0, 0);
    forall k | 0 <= k < |spans|
      ensures Reported(w[spans[k].start..spans[k].end]) == Reported(m[spans[k].start..spans[k].end])
    {
      assert n[spans[k].start..spans[k].end] == m[spans[k].start..spans[k].end];
      EvenSlices(n, w, spans[k].start, spans[k].end);
      ReportedEven(n[spans[k].start..spans[k].end], w[spans[k].start..spans[k].end]);
    }
    assert Marks(Control, w) == Marks(Control, m);
  }

  lemma {:induction false} BlankParted(m: string, n: string, d: nat, c: seq<bool>)
    requires Parted(m, n, d) && |c| == |m|
    ensures Parted(BlankAt(m, c), BlankAt(n, c), d)
  {
  }

  /**
   * With the same matches the two spellings are reported and stripped alike, save that
   * every match is on line 1 of a file without `\n`, and declare the same; and the
   * stripped bodies have the same statements under the same condition as before.
   */
  lemma {:induction false} SameMatchesMean(s: string)
    requires SameMatches(Convert(s, Lf), Convert(s, Cr))
    ensures var u, v := Convert(s, Lf), Convert(s, Cr);
            && |Findings(v)| == |Findings(u)|
            && (forall k :: 0 <= k < |Findings(u)| ==> Findings(v)[k].statement == Findings(u)[k].statement)
            && (forall k :: 0 <= k < |Findings(v)| ==> Findings(v)[k].line == 1)
            && ControlMarks(v) == ControlMarks(u) && Even(Strip(u), Strip(v))
            && (DeclaresDestructive(Strip(v)) <==> DeclaresDestructive(Strip(u)))
    ensures var u, v := Convert(s, Lf), Convert(s, Cr);
            var c := ControlMarks(u);
            SameStatements(Strip(u), Strip(v)) <==> SameTail(BlankAt(Mask(u), c), BlankAt(CutMask(u), c), PartAt(u))
  {
    hide Convert, Mask, CutMask, Even, Parted, SpansIn, FindingsIn, PiecesFrom, SameTail, EndBy, PartAt, Marks,
         Includes, CommentEndsAtNewline, BlankAt;
    var u, v := Convert(s, Lf), Convert(s, Cr);
    var m, n, d := Mask(u), CutMask(u), PartAt(u);
    SpellingsEven(s);
    MaskOfMac(u, v);
    MasksPart(u);
    MacCheckoutIsTheSameIff(s);
    ReportsMean(m, n, Mask(v), d);
    AllOnOneLine(v);
    StrippedMac(u, v);
  }

  lemma {:induction false} AllOnOneLine(v: string)
    requires '\n' !in v
    ensures forall k :: 0 <= k < |Findings(v)| ==> Findings(v)[k].line == 1
  {
    hide MatchEnd, SpansIn, FindingsIn, Reported, Mask;
    var m := Mask(v);
    MaskFaithful(v);
    FindingsAreTheMatches(m, 0);
    forall k | 0 <= k < |SpansIn(m, 0)|
      ensures NewlinesBefore(m, SpansIn(m, 0)[k].start) == 0
    {
      OneLine(m, SpansIn(m, 0)[k].start);
    }
  }

  lemma {:induction false} StrippedMac(u: string, v: string)
    requires Even(u, v) && Even(CutMask(u), Mask(v)) && ControlMarks(v) == ControlMarks(u)
    requires Parted(Mask(u), CutMask(u), PartAt(u))
    ensures Even(Strip(u), Strip(v)) && (DeclaresDestructive(Strip(v)) <==> DeclaresDestructive(Strip(u)))
    ensures var c := ControlMarks(u);
            SameStatements(Strip(u), Strip(v)) <==> SameTail(BlankAt(Mask(u), c), BlankAt(CutMask(u), c), PartAt(u))
  {
    hide Mask, CutMask, Even, Parted, PiecesFrom, SameTail, PartAt, ControlMarks, Includes, BlankAt;
    var c := ControlMarks(u);
    BlankEven(u, v, c);
    IncludesEven(Strip(u), Strip(v), DESTRUCTIVE_MARKER);
    MaskCommutesWithStrip(u);
    MaskCommutesWithStrip(v);
    BlankParted(Mask(u), CutMask(u), PartAt(u), c);
    BlankEven(CutMask(u), Mask(v), c);
    SamePiecesIff(BlankAt(Mask(u), c), BlankAt(CutMask(u), c), PartAt(u));
    PiecesEven(BlankAt(CutMask(u), c), BlankAt(Mask(v), c), 0);
  }
}
