/**
 * Where the matches and the statements of a masked text stand, and when two masked texts
 * that part at some offset still have the same ones.
 */
module Pieces {
  import opened Text
  import opened Scanner
  import opened Masking
  import opened Stripper
  import opened Residue
  import opened SqlStatements
  import opened EvenTexts

  /** The phrase that makes the text from `i` to `b` transaction control, if it is one. */
  function ControlOf(m: string, i: nat, b: nat): (k: Option<Keyword>)
    requires i <= b <= |m|
  {
    var k := PhraseAt(m, i);
    if k.Some? && IsPhrase(k.value, m, i, b) then k else None
  }

  /** Where a statement stands, and whether it controls the transaction. */
  datatype Piece = Piece(start: nat, end: nat, control: Option<Keyword>)

  function PiecesFrom(m: string, a: nat): (ps: seq<Piece>)
    requires a <= |m|
    decreases |m| - a
  {
    var b, i := SemicolonFrom(m, a), SkipSpace(m, a);
    var here := if i < b then [Piece(i, b, ControlOf(m, i, b))] else [];
    if b == |m| then here else here + PiecesFrom(m, b + 1)
  }

  function PiecesOf(sql: string): (ps: seq<Piece>) {
    PiecesFrom(Mask(sql), 0)
  }

  /** The statement that a piece of `sql` is. */
  function StmtOf(sql: string, p: Piece): (s: Stmt) {
    if p.control.Some? then Txn(p.control.value, p.end < |sql|)
    else if p.start <= p.end <= |sql| then Work(sql[p.start..p.end])
    else Work([])
  }

  function StmtsOf(sql: string, ps: seq<Piece>): (ss: seq<Stmt>)
    ensures |ss| == |ps|
  {
    seq(|ps|, k requires 0 <= k < |ps| => StmtOf(sql, ps[k]))
  }

  lemma {:induction false} UnfoldPieces(m: string, a: nat, b: nat, i: nat)
    requires a <= |m| && b == SemicolonFrom(m, a) && i == SkipSpace(m, a)
    ensures var rest := if b == |m| then [] else PiecesFrom(m, b + 1);
            PiecesFrom(m, a) == (if i < b then [Piece(i, b, ControlOf(m, i, b))] else []) + rest
  {
    hide ControlOf, SkipSpace, SemicolonFrom;
  }

  lemma {:induction false} StmtsOfFrom(sql: string, m: string, a: nat)
    requires a <= |m| == |sql|
    ensures StmtsFrom(sql, m, a) == StmtsOf(sql, PiecesFrom(m, a))
    decreases |m| - a
  {
    hide IsPhrase, PhraseAt, StmtOf, StmtsFrom, StmtAt, ControlOf, SemicolonFrom, SkipSpace, PiecesFrom, StmtsOf;
    var b, i := SemicolonFrom(m, a), SkipSpace(m, a);
    Unfold(sql, m, a, b, i);
    UnfoldPieces(m, a, b, i);
    var here := if i < b then [Piece(i, b, ControlOf(m, i, b))] else [];
    var rest := if b == |m| then [] else PiecesFrom(m, b + 1);
    StmtsOfBoth(sql, here, rest);
    if i < b {
      StmtOfPiece(sql, m, i, b);
    }
    if b < |m| {
      StmtsOfFrom(sql, m, b + 1);
    }
  }

  lemma {:induction false} StmtsOfBoth(sql: string, here: seq<Piece>, rest: seq<Piece>)
    ensures StmtsOf(sql, here + rest) == StmtsOf(sql, here) + StmtsOf(sql, rest)
    ensures StmtsOf(sql, []) == [] && (|here| == 1 ==> StmtsOf(sql, here) == [StmtOf(sql, here[0])])
  {
    hide StmtOf;
  }

  lemma {:induction false} StmtOfPiece(sql: string, m: string, i: nat, b: nat)
    requires i < b <= |m| == |sql|
    ensures StmtAt(sql, m, i, b) == StmtOf(sql, Piece(i, b, ControlOf(m, i, b)))
  {
  }

  /** The statements of a text are its pieces. */
  lemma {:induction false} StatementsArePieces(sql: string)
    ensures Statements(sql) == StmtsOf(sql, PiecesOf(sql))
  {
    hide Mask, StmtsFrom, StmtsOf, PiecesFrom;
    StmtsOfFrom(sql, Mask(sql), 0);
  }

  // ----- even texts

  lemma {:induction false} SemicolonEven(m: string, t: string, a: nat)
    requires Even(m, t) && a <= |m|
    ensures SemicolonFrom(t, a) == SemicolonFrom(m, a)
    decreases |m| - a
  {
    if a < |m| && m[a] != ';' {
      SemicolonEven(m, t, a + 1);
    }
  }

  lemma {:induction false} ControlOfEven(m: string, t: string, i: nat, b: nat)
    requires Even(m, t) && i <= b <= |m|
    ensures ControlOf(t, i, b) == ControlOf(m, i, b)
  {
    hide PhraseAt, KeywordEnd;
    PhraseEven(m, t, i);
    var k := PhraseAt(m, i);
    if k.Some? {
      KeywordEven(k.value, m, t, i);
      SkipSpaceEven(m, t, KeywordEnd(k.value, m, i).value);
    }
  }

  lemma {:induction false} PiecesEven(m: string, t: string, a: nat)
    requires Even(m, t) && a <= |m|
    ensures PiecesFrom(t, a) == PiecesFrom(m, a)
    decreases |m| - a
  {
    hide ControlOf, PiecesFrom, SkipSpace, SemicolonFrom, Even;
    EvenSlices(m, t, 0, 0);
    var b, i := SemicolonFrom(m, a), SkipSpace(m, a);
    SemicolonEven(m, t, a);
    SkipSpaceEven(m, t, a);
    UnfoldPieces(m, a, b, i);
    UnfoldPieces(t, a, b, i);
    if i < b {
      ControlOfEven(m, t, i, b);
    }
    if b < |m| {
      PiecesEven(m, t, b + 1);
    }
  }

  lemma {:induction false} SpansEven(m: string, t: string, i: nat)
    requires Even(m, t) && i <= |m|
    ensures SpansIn(t, i) == SpansIn(m, i)
    decreases |m| - i
  {
    hide MatchEnd;
    if i < |m| {
      MatchEven(Control, m, t, i);
      match MatchEnd(Control, m, i)
      case Some(e) => SpansEven(m, t, e);
      case None => SpansEven(m, t, i + 1);
    }
  }

  // ----- two texts that part

  /** The texts are one before `d`; from there on, where one has a solid character the other has a blank. */
  ghost predicate Parted(m: string, n: string, d: nat) {
    && d <= |m| == |n|
    && (forall j :: 0 <= j < d ==> n[j] == m[j])
    && forall j :: d <= j < |m| ==> IsBlank(m[j]) || IsBlank(n[j])
  }

  lemma {:induction false} PartedBack(m: string, n: string, d: nat)
    requires Parted(m, n, d)
    ensures Parted(n, m, d)
  {
  }

  ghost predicate EndBy(spans: seq<Span>, d: nat) {
    forall k :: 0 <= k < |spans| ==> spans[k].end <= d
  }

  lemma {:induction false} MatchBefore(m: string, n: string, d: nat, i: nat)
    requires Parted(m, n, d) && i < |m| && ControlEnd(m, i).Some? && ControlEnd(m, i).value <= d
    ensures ControlEnd(n, i) == ControlEnd(m, i)
  {
    assert i > 0 ==> n[i - 1] == m[i - 1] && !IsWord(m[i - 1]);
    hide ControlEnd;
    ControlLocal(n, m, i, ControlEnd(m, i).value);
  }

  lemma {:induction false} SpansLater(m: string, i: nat, d: nat)
    requires d <= i <= |m|
    ensures EndBy(SpansIn(m, i), d) ==> SpansIn(m, i) == []
  {
    hide MatchEnd;
    FindingsAreTheMatches(m, i);
    if SpansIn(m, i) != [] {
      assert d < SpansIn(m, i)[0].end;
    }
  }

  lemma {:induction false} SpansSame(m: string, n: string, d: nat, i: nat)
    requires Parted(m, n, d) && i <= |m| && EndBy(SpansIn(m, i), d) && EndBy(SpansIn(n, i), d)
    ensures SpansIn(n, i) == SpansIn(m, i)
    decreases |m| - i
  {
    hide MatchEnd, Parted, EndBy;
    PartedBack(m, n, d);
    if d <= i {
      SpansLater(m, i, d);
      SpansLater(n, i, d);
    } else {
      EndByNext(m, i, d);
      EndByNext(n, i, d);
      MatchesBefore(m, n, d, i);
      match MatchEnd(Control, m, i)
      case Some(e) => SpansSame(m, n, d, e);
      case None => SpansSame(m, n, d, i + 1);
    }
  }

  lemma {:induction false} EndByNext(m: string, i: nat, d: nat)
    requires i < |m| && EndBy(SpansIn(m, i), d)
    ensures match MatchEnd(Control, m, i)
            case Some(e) => e <= d && EndBy(SpansIn(m, e), d)
            case None => EndBy(SpansIn(m, i + 1), d)
  {
    hide ControlEnd;
    match MatchEnd(Control, m, i)
    case None =>
    case Some(e) =>
      var all, rest := SpansIn(m, i), SpansIn(m, e);
      assert all[0] == Span(i, e);
      assert forall k :: 0 <= k < |rest| ==> all[k + 1] == rest[k];
  }

  lemma {:induction false} MatchesBefore(m: string, n: string, d: nat, i: nat)
    requires Parted(m, n, d) && i < |m| && |n| == |m|
    requires MatchEnd(Control, m, i).Some? ==> MatchEnd(Control, m, i).value <= d
    requires MatchEnd(Control, n, i).Some? ==> MatchEnd(Control, n, i).value <= d
    ensures MatchEnd(Control, n, i) == MatchEnd(Control, m, i)
  {
    hide ControlEnd;
    if ControlEnd(m, i).Some? {
      MatchBefore(m, n, d, i);
    } else if ControlEnd(n, i).Some? {
      PartedBack(m, n, d);
      MatchBefore(n, m, d, i);
    }
  }

  /** Two texts that part at `d` have the same matches exactly when none of either ends behind `d`. */
  lemma {:induction false} SameMatchesIff(m: string, n: string, d: nat)
    requires Parted(m, n, d)
    ensures SpansIn(n, 0) == SpansIn(m, 0) <==> EndBy(SpansIn(m, 0), d) && EndBy(SpansIn(n, 0), d)
  {
    hide MatchEnd, SpansIn;
    if EndBy(SpansIn(m, 0), d) && EndBy(SpansIn(n, 0), d) {
      SpansSame(m, n, d, 0);
    }
    if SpansIn(n, 0) == SpansIn(m, 0) {
      FindingsAreTheMatches(m, 0);
      FindingsAreTheMatches(n, 0);
      SharedEndBy(m, n, d, SpansIn(m, 0));
    }
  }

  lemma {:induction false} SharedEndBy(m: string, n: string, d: nat, spans: seq<Span>)
    requires Parted(m, n, d) && AreMatches(m, 0, spans) && AreMatches(n, 0, spans)
    ensures EndBy(spans, d)
  {
    hide MatchEnd;
    forall k | 0 <= k < |spans|
      ensures spans[k].end <= d
    {
      EndsInSemicolon(m, spans[k]);
      EndsInSemicolon(n, spans[k]);
    }
  }

  lemma {:induction false} EndsInSemicolon(m: string, s: Span)
    requires s.start < s.end <= |m| && MatchEnd(Control, m, s.start) == Some(s.end)
    ensures m[s.end - 1] == ';'
  {
  }

  // ----- statements of two texts that part

  /** Where the statement begins that is not over at `d`. */
  function LastStart(m: string, d: nat): (a: nat)
    requires d <= |m|
    ensures a <= d && (a == 0 || m[a - 1] == ';')
    ensures forall y :: a <= y < d ==> m[y] != ';'
    decreases d
  {
    if d == 0 || m[d - 1] == ';' then d else LastStart(m, d - 1)
  }

  /** Only empty statements follow. */
  ghost predicate Idle(m: string, d: nat) {
    forall j :: d <= j < |m| ==> m[j] == ';' || IsSpace(m[j])
  }

  /**
   * If a statement has begun and is not over at `d`, neither text ends it, and it is the
   * same control or no control in both; if none has, neither text begins another.
   */
  ghost predicate SameTail(m: string, n: string, d: nat)
    requires d <= |m| == |n|
  {
    var i := SkipSpace(m, LastStart(m, d));
    if i < d then
      SemicolonFrom(m, d) == |m| && SemicolonFrom(n, d) == |n| && ControlOf(n, i, |n|) == ControlOf(m, i, |m|)
    else
      Idle(m, d) && Idle(n, d)
  }

  lemma {:induction false} ControlAgrees(m: string, n: string, i: nat, b: nat)
    requires |m| == |n| && i < b <= |m| && forall y :: i <= y <= b && y < |m| ==> n[y] == m[y]
    ensures ControlOf(n, i, b) == ControlOf(m, i, b)
  {
    StmtAgrees(m, m, m, n, i, b);
  }

  /** Statements that are over before the texts part are the same. */
  lemma {:induction false} SameUpTo(m: string, n: string, d: nat, x: nat)
    requires Parted(m, n, d) && x <= LastStart(m, d)
    ensures PiecesFrom(n, x) == PiecesFrom(m, x)
        <==> PiecesFrom(n, LastStart(m, d)) == PiecesFrom(m, LastStart(m, d))
    decreases |m| - x
  {
    hide ControlOf, PiecesFrom, SemicolonFrom, SkipSpace, LastStart;
    var a := LastStart(m, d);
    if x < a {
      var b, i := SemicolonFrom(m, x), SkipSpace(m, x);
      OverBefore(m, n, d, x);
      UnfoldPieces(m, x, b, i);
      UnfoldPieces(n, x, b, i);
      SameUpTo(m, n, d, b + 1);
      var here := if i < b then [Piece(i, b, ControlOf(m, i, b))] else [];
      SameAfter(here, PiecesFrom(m, b + 1), PiecesFrom(n, b + 1));
    }
  }

  lemma {:induction false} OverBefore(m: string, n: string, d: nat, x: nat)
    requires Parted(m, n, d) && x < LastStart(m, d)
    ensures var b, i := SemicolonFrom(m, x), SkipSpace(m, x);
            && b < LastStart(m, d) && SemicolonFrom(n, x) == b && SkipSpace(n, x) == i
            && (i < b ==> ControlOf(n, i, b) == ControlOf(m, i, b))
  {
    hide ControlOf;
    var b, i := SemicolonFrom(m, x), SkipSpace(m, x);
    assert m[LastStart(m, d) - 1] == ';';
    BoundsKept(m, n, x);
    if i < b {
      ControlAgrees(m, n, i, b);
    }
  }

  lemma {:induction false} SameAfter(here: seq<Piece>, r: seq<Piece>, r': seq<Piece>)
    ensures here + r == here + r' <==> r == r'
  {
    if here + r == here + r' {
      assert (here + r)[|here|..] == r && (here + r')[|here|..] == r';
    }
  }

  lemma {:induction false} IdleIff(m: string, a: nat)
    requires a <= |m|
    ensures PiecesFrom(m, a) == [] <==> Idle(m, a)
    ensures PiecesFrom(m, a) != [] ==>
              var p := PiecesFrom(m, a)[0]; a <= p.start < |m| && !IsSpace(m[p.start])
    decreases |m| - a
  {
    hide ControlOf, PiecesFrom, SkipSpace, SemicolonFrom;
    var b, i := SemicolonFrom(m, a), SkipSpace(m, a);
    UnfoldPieces(m, a, b, i);
    if i < b {
      assert m[i] != ';' && !IsSpace(m[i]);
    } else if b < |m| {
      IdleIff(m, b + 1);
      assert forall j :: a <= j < b ==> IsSpace(m[j]);
    }
  }

  lemma {:induction false} SemicolonPast(m: string, a: nat, d: nat)
    requires a <= d <= |m| && forall y :: a <= y < d ==> m[y] != ';'
    ensures SemicolonFrom(m, a) == SemicolonFrom(m, d)
    decreases d - a
  {
    if a < d {
      SemicolonPast(m, a + 1, d);
    }
  }

  /** A statement in progress where the texts part. */
  lemma {:induction false} InProgress(m: string, n: string, d: nat, a: nat)
    requires Parted(m, n, d) && a == LastStart(m, d) && SkipSpace(m, a) < d
    ensures PiecesFrom(n, a) == PiecesFrom(m, a) <==> SameTail(m, n, d)
  {
    hide ControlOf;
    var i := SkipSpace(m, a);
    SkipTo(n, a, i);
    SemicolonPast(m, a, d);
    SemicolonPast(n, a, d);
    var b, b' := SemicolonFrom(m, d), SemicolonFrom(n, d);
    assert PiecesFrom(m, a)[0] == Piece(i, b, ControlOf(m, i, b));
    assert PiecesFrom(n, a)[0] == Piece(i, b', ControlOf(n, i, b'));
    if PiecesFrom(n, a) == PiecesFrom(m, a) {
      assert b' == b;
      assert b == |m|;
    }
  }

  /** No statement in progress where they part. */
  lemma {:induction false} Between(m: string, n: string, d: nat, a: nat)
    requires Parted(m, n, d) && a == LastStart(m, d) && d <= SkipSpace(m, a)
    ensures PiecesFrom(n, a) == PiecesFrom(m, a) <==> SameTail(m, n, d)
  {
    hide PiecesFrom, ControlOf, SemicolonFrom;
    IdleIff(m, a);
    IdleIff(n, a);
    assert forall y :: a <= y < d ==> IsSpace(m[y]) && n[y] == m[y];
    assert Idle(m, a) <==> Idle(m, d);
    assert Idle(n, a) <==> Idle(n, d);
    if PiecesFrom(m, a) != [] && PiecesFrom(n, a) != [] {
      var p, q := PiecesFrom(m, a)[0], PiecesFrom(n, a)[0];
      assert d <= p.start && IsSpace(n[p.start]);
      assert p.start != q.start;
    }
  }

  /** Two texts that part at `d` have the same statements exactly when the condition at `d` holds. */
  lemma {:induction false} SamePiecesIff(m: string, n: string, d: nat)
    requires Parted(m, n, d)
    ensures PiecesFrom(n, 0) == PiecesFrom(m, 0) <==> SameTail(m, n, d)
  {
    hide PiecesFrom, ControlOf, Parted, SameTail, SkipSpace;
    PartedBack(m, n, d);
    var a := LastStart(m, d);
    SameUpTo(m, n, d, 0);
    if SkipSpace(m, a) < d {
      InProgress(m, n, d, a);
    } else {
      Between(m, n, d, a);
    }
  }

  /** With the same statements they have the same matches. */
  lemma {:induction false} TailEndsMatches(m: string, n: string, d: nat)
    requires Parted(m, n, d) && SameTail(m, n, d)
    ensures EndBy(SpansIn(m, 0), d)
  {
    hide MatchEnd, SpansIn, ControlOf;
    FindingsAreTheMatches(m, 0);
    var spans := SpansIn(m, 0);
    forall k | 0 <= k < |spans|
      ensures spans[k].end <= d
    {
      if d < spans[k].end {
        MatchBehind(m, n, d, spans[k].start, spans[k].end);
      }
    }
  }

  lemma {:induction false} MatchBehind(m: string, n: string, d: nat, s: nat, e: nat)
    requires Parted(m, n, d) && s < e <= |m| && MatchEnd(Control, m, s) == Some(e) && d < e
    ensures !SameTail(m, n, d)
  {
    hide ControlEnd, ControlOf;
    var a := LastStart(m, d);
    MatchStaysInStatement(m, a, s, e);
    EndsInSemicolon(m, Span(s, e));
    assert SemicolonFrom(m, d) < |m|;
    assert !IsSpace(m[s]) && m[s] != ';';
    if d <= SkipSpace(m, a) {
      assert d <= s;
      assert !Idle(m, d);
    }
  }
}
