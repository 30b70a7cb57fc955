/**
 * The one query text that the embedded replay makes of a file, `BEGIN; ... ; COMMIT;`: how
 * the database reads it, and what it asks for.
 */
module Composed {
  import opened Text
  import opened Scanner
  import opened Masking
  import opened SqlStatements
  import opened Database

  const HEAD := "BEGIN; "
  const TAIL := " ; COMMIT;"

  /** The tail inside a comment, masked. */
  const LOST := "          "

  function Framed(s: string, tail: string): (v: string) {
    HEAD + s + tail
  }

  /** What is sent for the stripped text `t`. */
  function Compose(t: string): (v: string) {
    Framed(t, TAIL)
  }

  // ----- the frame does not disturb the masking of what it surrounds

  /** No masking pattern begins or ends with it. */
  predicate Quiet(c: char) {
    c != '$' && c != '/' && c != '*' && c != '-' && c != '\'' && c != '\n'
  }

  ghost predicate QuietTail(tail: string) {
    tail != [] && tail[0] == ' ' && forall x :: 0 <= x < |tail| ==> Quiet(tail[x])
  }

  /** `v` is `s` behind a quiet head and before a quiet tail. */
  ghost predicate Frames(v: string, s: string) {
    && |s| + 7 < |v| && v[|s| + 7] == ' '
    && (forall x :: 7 <= x < |s| + 7 ==> v[x] == s[x - 7])
    && forall x :: 0 <= x < |v| && (x < 7 || |s| + 7 <= x) ==> Quiet(v[x])
  }

  lemma {:induction false} FramedFrames(s: string, tail: string)
    requires QuietTail(tail)
    ensures Frames(Framed(s, tail), s)
  {
    var v := Framed(s, tail);
    assert forall x :: 0 <= x < |v| ==>
      v[x] == if x < 7 then HEAD[x] else if x < |s| + 7 then s[x - 7] else tail[x - 7 - |s|];
    assert forall x :: 0 <= x < 7 ==> Quiet(HEAD[x]);
  }

  function Up(r: Option<nat>): (r': Option<nat>) {
    match r case None => None case Some(e) => Some(e + 7)
  }

  lemma {:induction false} WordEndUp(v: string, s: string, i: nat)
    requires Frames(v, s) && i <= |s|
    ensures WordEnd(v, i + 7) == WordEnd(s, i) + 7
    decreases |s| - i
  {
    if i < |s| && IsWord(s[i]) {
      WordEndUp(v, s, i + 1);
    }
  }

  lemma {:induction false} TagCloserUp(v: string, s: string, k: nat, tag: string)
    requires Frames(v, s) && k < |s|
    ensures TagCloserAt(v, k + 7, tag) <==> TagCloserAt(s, k, tag)
    ensures BareCloserAt(v, k + 7) <==> BareCloserAt(s, k)
  {
    if TagCloserAt(v, k + 7, tag) {
      assert v[k + 8 + |tag|] == '$';
      assert k + 1 + |tag| < |s|;
      forall x | 0 <= x < |tag|
        ensures s[k + 1 + x] == tag[x]
      {
        assert v[k + 7 + 1 + x] == tag[x];
      }
    }
    if TagCloserAt(s, k, tag) {
      forall x | 0 <= x < |tag|
        ensures v[k + 7 + 1 + x] == tag[x]
      {
        assert s[k + 1 + x] == tag[x];
      }
    }
  }

  lemma {:induction false} NoDollarClose(v: string, k: nat, tag: string)
    requires k <= |v| && forall x :: k <= x < |v| ==> v[x] != '$'
    ensures DollarClose(v, k, tag).None?
    decreases |v| - k
  {
    if k < |v| {
      NoDollarClose(v, k + 1, tag);
    }
  }

  lemma {:induction false} DollarCloseUp(v: string, s: string, k: nat, tag: string)
    requires Frames(v, s) && k <= |s|
    ensures DollarClose(v, k + 7, tag) == Up(DollarClose(s, k, tag))
    decreases |s| - k
  {
    hide TagCloserAt, BareCloserAt;
    if k == |s| {
      NoDollarClose(v, k + 7, tag);
    } else {
      TagCloserUp(v, s, k, tag);
      DollarCloseUp(v, s, k + 1, tag);
    }
  }

  lemma {:induction false} DollarUp(v: string, s: string, i: nat)
    requires Frames(v, s) && i < |s|
    ensures DollarEnd(v, i + 7) == Up(DollarEnd(s, i))
  {
    hide DollarClose;
    if i + 1 < |s| && IsIdentStart(s[i + 1]) {
      WordEndUp(v, s, i + 2);
    }
    var q := TagEnd(s, i + 1);
    assert TagEnd(v, i + 8) == q + 7;
    assert v[i + 8..q + 7] == s[i + 1..q];
    if q < |s| {
      DollarCloseUp(v, s, q + 1, s[i + 1..q]);
    }
  }

  lemma {:induction false} NoBlockClose(v: string, k: nat)
    requires k <= |v| && forall x :: k < x < |v| ==> v[x] != '/'
    ensures BlockClose(v, k).None?
    decreases |v| - k
  {
    if k + 1 < |v| {
      NoBlockClose(v, k + 1);
    }
  }

  lemma {:induction false} BlockCloseUp(v: string, s: string, k: nat)
    requires Frames(v, s) && k <= |s|
    ensures BlockClose(v, k + 7) == Up(BlockClose(s, k))
    decreases |s| - k
  {
    if k + 1 >= |s| {
      NoBlockClose(v, k + 7);
    } else if !(s[k] == '*' && s[k + 1] == '/') {
      BlockCloseUp(v, s, k + 1);
    }
  }

  lemma {:induction false} NoQuoteClose(v: string, j: nat, last: Option<nat>)
    requires j <= |v| && (last.Some? ==> last.value < j) && forall x :: j <= x < |v| ==> v[x] != '\''
    ensures QuoteClose(v, j, last) == last
    decreases |v| - j
  {
    if j < |v| {
      NoQuoteClose(v, j + 1, last);
    }
  }

  lemma {:induction false} QuoteCloseUp(v: string, s: string, j: nat, last: Option<nat>)
    requires Frames(v, s) && j <= |s| && (last.Some? ==> last.value < j)
    ensures QuoteClose(v, j + 7, Up(last)) == Up(QuoteClose(s, j, last))
    decreases |s| - j
  {
    if j == |s| {
      NoQuoteClose(v, j + 7, Up(last));
    } else if s[j] != '\'' {
      QuoteCloseUp(v, s, j + 1, last);
    } else if j + 1 < |s| && s[j + 1] == '\'' {
      QuoteCloseUp(v, s, j + 2, Some(j + 1));
    }
  }

  lemma {:induction false} LineCloseRuns(v: string, k: nat)
    requires k <= |v| && forall x :: k <= x < |v| ==> v[x] != '\n'
    ensures LineClose(v, k) == |v|
    decreases |v| - k
  {
    if k < |v| {
      LineCloseRuns(v, k + 1);
    }
  }

  lemma {:induction false} LineCloseUp(v: string, s: string, k: nat)
    requires Frames(v, s) && k <= |s|
    ensures LineClose(v, k + 7) == if LineClose(s, k) == |s| then |v| else LineClose(s, k) + 7
    decreases |s| - k
  {
    if k == |s| {
      LineCloseRuns(v, k + 7);
    } else if s[k] != '\n' {
      LineCloseUp(v, s, k + 1);
    }
  }

  /** A line comment that runs to the end of the text runs to the end of the frame; nothing else changes. */
  lemma {:induction false} MatchUp(p: Pattern, v: string, s: string, i: nat)
    requires p != Control && Frames(v, s) && i < |s|
    ensures MatchEnd(p, v, i + 7)
         == if p == Line && MatchEnd(p, s, i) == Some(|s|) then Some(|v|) else Up(MatchEnd(p, s, i))
  {
    hide QuoteClose, BlockClose, LineClose, DollarEnd;
    match p
    case Dollar => DollarUp(v, s, i);
    case Block =>
      if i + 1 < |s| {
        BlockCloseUp(v, s, i + 2);
      }
    case Line =>
      if i + 1 < |s| {
        LineCloseUp(v, s, i + 2);
      }
    case Quote => QuoteCloseUp(v, s, i + 1, None);
  }

  lemma {:induction false} QuietMatchesNothing(p: Pattern, v: string, x: nat)
    requires p != Control && x < |v| && Quiet(v[x])
    ensures MatchEnd(p, v, x).None?
  {
  }

  lemma {:induction false} QuietIsUnmarked(p: Pattern, v: string, i: nat, n: nat, j: nat)
    requires p != Control && i <= n <= |v| && forall x :: i <= x < n ==> Quiet(v[x])
    requires j < |v|
    ensures Marked(p, v, i, j) == Marked(p, v, n, j)
    decreases n - i
  {
    hide MatchEnd;
    if i < n {
      QuietMatchesNothing(p, v, i);
      QuietIsUnmarked(p, v, i + 1, n, j);
    }
  }

  /** A line comment runs to the end of `s`. */
  predicate CommentRuns(s: string) {
    s != [] && Marks(Line, s)[|s| - 1]
  }

  lemma {:induction false} MarkedUp(p: Pattern, v: string, s: string, i: nat, j: nat)
    requires p != Control && Frames(v, s) && i <= |s| && i + 7 <= j < |v|
    ensures Marked(p, v, i + 7, j)
         == if j < |s| + 7 then Marked(p, s, i, j - 7) else p == Line && s != [] && Marked(p, s, i, |s| - 1)
    decreases |s| - i
  {
    hide MatchEnd, Frames;
    if i == |s| {
      FrameEnd(v, s);
      QuietIsUnmarked(p, v, i + 7, |v|, j);
    } else {
      MatchUp(p, v, s, i);
      match MatchEnd(p, s, i)
      case None =>
        FrameQuiet(p, v, s, i);
        if i + 8 <= j {
          MarkedUp(p, v, s, i + 1, j);
        }
      case Some(e) =>
        if !(p == Line && e == |s|) && e + 7 <= j {
          MarkedUp(p, v, s, e, j);
        }
    }
  }

  lemma {:induction false} FrameEnd(v: string, s: string)
    requires Frames(v, s)
    ensures |s| + 7 < |v| && forall x :: |s| + 7 <= x < |v| ==> Quiet(v[x])
    ensures forall x :: 0 <= x < 7 ==> Quiet(v[x])
  {
  }

  lemma {:induction false} FrameQuiet(p: Pattern, v: string, s: string, i: nat)
    requires p != Control && Frames(v, s) && i < |s| && MatchEnd(p, s, i).None?
    ensures MatchEnd(p, v, i + 7).None?
  {
    MatchUp(p, v, s, i);
  }

  /** A masking pass over a framed text. */
  lemma {:induction false} PassUp(p: Pattern, s: string, tail: string)
    requires p != Control && QuietTail(tail)
    ensures Pass(p, Framed(s, tail))
         == Framed(Pass(p, s), if p == Line && CommentRuns(s) then seq(|tail|, x => ' ') else tail)
  {
    hide Marked, Frames;
    var v := Framed(s, tail);
    FramedFrames(s, tail);
    FrameEnd(v, s);
    forall j | 0 <= j < |v|
      ensures Marks(p, v)[j] <==>
              (7 <= j < |s| + 7 && Marks(p, s)[j - 7]) || (|s| + 7 <= j && p == Line && CommentRuns(s))
    {
      QuietIsUnmarked(p, v, 0, 7, j);
      if j < 7 {
        NotYet(p, v, 7, j);
      } else {
        MarkedUp(p, v, s, 0, j);
      }
    }
    assert forall x :: 0 <= x < |tail| ==> BlankChar(tail[x]) == ' ';
  }

  lemma {:induction false} NotYet(p: Pattern, v: string, i: nat, j: nat)
    requires j < i <= |v|
    ensures !Marked(p, v, i, j)
  {
  }

  /** A line comment of the text runs to its end, so that the tail becomes part of it. */
  predicate CommentOpen(t: string) {
    CommentRuns(Pass(Block, Pass(Dollar, t)))
  }

  /** How the composed text is masked: like its parts, unless a comment swallows the tail. */
  lemma {:induction false} MaskOfComposed(t: string)
    ensures Mask(Compose(t)) == Framed(Mask(t), if CommentOpen(t) then LOST else TAIL)
  {
    hide Pass, CommentRuns, Framed;
    var a := Pass(Dollar, t);
    var b := Pass(Block, a);
    assert seq(|TAIL|, x => ' ') == LOST;
    PassUp(Dollar, t, TAIL);
    PassUp(Block, a, TAIL);
    PassUp(Line, b, TAIL);
    PassUp(Quote, Pass(Line, b), if CommentRuns(b) then LOST else TAIL);
  }

  // ----- statements behind a prefix

  lemma {:induction false} SkipBehind(pre: string, m: string, i: nat)
    requires i <= |m|
    ensures SkipSpace(pre + m, |pre| + i) == |pre| + SkipSpace(m, i)
    decreases |m| - i
  {
    if i < |m| && IsSpace(m[i]) {
      SkipBehind(pre, m, i + 1);
    }
  }

  lemma {:induction false} SemicolonBehind(pre: string, m: string, a: nat)
    requires a <= |m|
    ensures SemicolonFrom(pre + m, |pre| + a) == |pre| + SemicolonFrom(m, a)
    decreases |m| - a
  {
    if a < |m| && m[a] != ';' {
      SemicolonBehind(pre, m, a + 1);
    }
  }

  lemma {:induction false} WordBehind(pre: string, m: string, i: nat, w: string)
    requires i <= |m|
    ensures HasWord(pre + m, |pre| + i, w) <==> HasWord(m, i, w)
  {
    if HasWord(m, i, w) {
      forall y | |pre| + i <= y < |pre| + i + |w|
        ensures Upper((pre + m)[y]) == w[y - (|pre| + i)]
      {
        assert Upper(m[y - |pre|]) == w[y - |pre| - i];
      }
    }
    if HasWord(pre + m, |pre| + i, w) {
      forall y | i <= y < i + |w|
        ensures Upper(m[y]) == w[y - i]
      {
        assert (pre + m)[|pre| + y] == m[y];
      }
    }
  }

  lemma {:induction false} PhraseBehind(pre: string, m: string, i: nat)
    requires i <= |m|
    ensures PhraseAt(pre + m, |pre| + i) == PhraseAt(m, i)
    ensures forall k :: KeywordEnd(k, pre + m, |pre| + i)
                     == match KeywordEnd(k, m, i) case None => None case Some(e) => Some(|pre| + e)
  {
    hide HasWord, SkipSpace;
    forall k
      ensures KeywordEnd(k, pre + m, |pre| + i)
           == match KeywordEnd(k, m, i) case None => None case Some(e) => Some(|pre| + e)
    {
      KeywordBehind(k, pre, m, i);
    }
  }

  lemma {:induction false} KeywordBehind(k: Keyword, pre: string, m: string, i: nat)
    requires i <= |m|
    ensures KeywordEnd(k, pre + m, |pre| + i)
         == match KeywordEnd(k, m, i) case None => None case Some(e) => Some(|pre| + e)
  {
    hide HasWord, TransactionWord, Head;
    WordBehind(pre, m, i, Head(k));
    if HasWord(m, i, Head(k)) {
      InText(m, i, Head(k));
      TransactionBehind(pre, m, i + |Head(k)|);
    }
  }

  lemma {:induction false} TransactionBehind(pre: string, m: string, j: nat)
    requires j <= |m|
    ensures TransactionWord(pre + m, |pre| + j)
         == match TransactionWord(m, j) case None => None case Some(e) => Some(|pre| + e)
  {
    hide HasWord, SkipSpace;
    SkipBehind(pre, m, j);
    WordBehind(pre, m, SkipSpace(m, j), "TRANSACTION");
  }

  lemma {:induction false} InText(m: string, i: nat, w: string)
    requires HasWord(m, i, w)
    ensures i + |w| <= |m|
  {
  }

  lemma {:induction false} StmtBehind(t: string, m: string, sql: string, x: string, i: nat, b: nat)
    requires |t| == |m| && i < b <= |x| == |sql|
    ensures StmtAt(t + sql, m + x, |m| + i, |m| + b) == StmtAt(sql, x, i, b)
  {
    hide PhraseAt, KeywordEnd;
    PhraseBehind(m, x, i);
    var k := PhraseAt(x, i);
    if k.Some? {
      SkipBehind(m, x, KeywordEnd(k.value, x, i).value);
    }
    assert (t + sql)[|m| + i..|m| + b] == sql[i..b];
  }

  lemma {:induction false} StmtsBehind(t: string, m: string, sql: string, x: string, a: nat)
    requires |t| == |m| && a <= |x| == |sql|
    ensures StmtsFrom(t + sql, m + x, |m| + a) == StmtsFrom(sql, x, a)
    decreases |x| - a
  {
    hide StmtAt, StmtsFrom, SkipSpace, SemicolonFrom;
    var b, i := SemicolonFrom(x, a), SkipSpace(x, a);
    SemicolonBehind(m, x, a);
    SkipBehind(m, x, a);
    Unfold(sql, x, a, b, i);
    Unfold(t + sql, m + x, |m| + a, |m| + b, |m| + i);
    if i < b {
      StmtBehind(t, m, sql, x, i, b);
    }
    if b < |x| {
      StmtsBehind(t, m, sql, x, b + 1);
    }
  }

  // ----- statements before a tail

  /** The tail begins with blanks, which go on to a semicolon or to its end. */
  ghost predicate TailOf(tail: string, g: nat) {
    0 < g <= |tail| && tail[0] == ' ' && SkipSpace(tail, 0) == g && SemicolonFrom(tail, 0) == g
  }

  lemma {:induction false} Tails()
    ensures TailOf(TAIL, 1) && TailOf(LOST, 10)
  {
    assert SkipSpace(LOST, 10) == 10 == SkipSpace(LOST, 9) == SkipSpace(LOST, 8) == SkipSpace(LOST, 7)
           == SkipSpace(LOST, 6) == SkipSpace(LOST, 5) == SkipSpace(LOST, 4) == SkipSpace(LOST, 3)
           == SkipSpace(LOST, 2) == SkipSpace(LOST, 1) == SkipSpace(LOST, 0);
    assert SemicolonFrom(LOST, 10) == 10 == SemicolonFrom(LOST, 9) == SemicolonFrom(LOST, 8)
           == SemicolonFrom(LOST, 7) == SemicolonFrom(LOST, 6) == SemicolonFrom(LOST, 5) == SemicolonFrom(LOST, 4)
           == SemicolonFrom(LOST, 3) == SemicolonFrom(LOST, 2) == SemicolonFrom(LOST, 1) == SemicolonFrom(LOST, 0);
  }

  lemma {:induction false} SkipBefore(m: string, tail: string, j: nat)
    requires j <= |m|
    ensures SkipSpace(m + tail, j)
         == if SkipSpace(m, j) < |m| then SkipSpace(m, j) else |m| + SkipSpace(tail, 0)
    decreases |m| - j
  {
    if j == |m| {
      SkipBehind(m, tail, 0);
    } else if IsSpace(m[j]) {
      SkipBefore(m, tail, j + 1);
    }
  }

  lemma {:induction false} SemicolonBefore(m: string, tail: string, a: nat)
    requires a <= |m|
    ensures SemicolonFrom(m + tail, a)
         == if SemicolonFrom(m, a) < |m| then SemicolonFrom(m, a) else |m| + SemicolonFrom(tail, 0)
    decreases |m| - a
  {
    if a == |m| {
      SemicolonBehind(m, tail, 0);
    } else if m[a] != ';' {
      SemicolonBefore(m, tail, a + 1);
    }
  }

  /** Every character is an upper-case letter. */
  ghost predicate Capitals(w: string) {
    w != [] && forall x :: 0 <= x < |w| ==> 'A' <= w[x] <= 'Z'
  }

  /** A word does not reach into the tail. */
  lemma {:induction false} WordBefore(m: string, tail: string, i: nat, w: string)
    requires i <= |m| && tail != [] && tail[0] == ' ' && Capitals(w)
    ensures HasWord(m + tail, i, w) <==> HasWord(m, i, w)
  {
    if HasWord(m + tail, i, w) {
      forall y | i <= y < i + |w|
        ensures (m + tail)[y] != ' '
      {
        assert Upper((m + tail)[y]) == w[y - i];
      }
      assert (m + tail)[|m|] == ' ';
      forall y | i <= y < i + |w|
        ensures Upper(m[y]) == w[y - i]
      {
        assert (m + tail)[y] == m[y];
      }
    }
  }

  lemma {:induction false} NoWordInTail(tail: string, g: nat, w: string)
    requires TailOf(tail, g) && Capitals(w)
    ensures !HasWord(tail, g, w)
  {
    assert g < |tail| ==> Upper(tail[g]) == ';';
  }

  lemma {:induction false} KeywordBefore(k: Keyword, m: string, tail: string, g: nat, i: nat)
    requires TailOf(tail, g) && i <= |m|
    ensures KeywordEnd(k, m + tail, i) == KeywordEnd(k, m, i)
  {
    hide SkipSpace, HasWord, SemicolonFrom, TailOf;
    TailBegins(tail, g);
    var w, n := "TRANSACTION", i + |Head(k)|;
    WordBefore(m, tail, i, Head(k));
    if HasWord(m, i, Head(k)) {
      InText(m, i, Head(k));
      SkipBefore(m, tail, n);
      var x := SkipSpace(m, n);
      WordBefore(m, tail, x, w);
      if x == |m| {
        NoWordAtEnd(m, w);
        NoWordInTail(tail, g, w);
        WordBehind(m, tail, g, w);
      }
    }
  }

  lemma {:induction false} TailBegins(tail: string, g: nat)
    requires TailOf(tail, g)
    ensures 0 < g <= |tail| && tail[0] == ' ' && SkipSpace(tail, 0) == g && SemicolonFrom(tail, 0) == g
  {
  }

  lemma {:induction false} NoWordAtEnd(m: string, w: string)
    requires w != []
    ensures !HasWord(m, |m|, w)
  {
  }

  lemma {:induction false} PhraseBefore(m: string, tail: string, g: nat, i: nat)
    requires TailOf(tail, g) && i <= |m|
    ensures PhraseAt(m + tail, i) == PhraseAt(m, i)
  {
    hide KeywordEnd, TailOf;
    forall k
      ensures KeywordEnd(k, m + tail, i) == KeywordEnd(k, m, i)
    {
      KeywordBefore(k, m, tail, g, i);
    }
  }

  lemma {:induction false} PhraseEndsBefore(k: Keyword, m: string, tail: string, g: nat, i: nat, b: nat, b': nat)
    requires TailOf(tail, g) && i < b <= |m| && b' == if b < |m| then b else |m| + g
    requires b < |m| ==> m[b] == ';'
    ensures IsPhrase(k, m + tail, i, b') <==> IsPhrase(k, m, i, b)
  {
    hide KeywordEnd, SemicolonFrom;
    KeywordBefore(k, m, tail, g, i);
    var p := KeywordEnd(k, m, i);
    if p.Some? {
      SkipBefore(m, tail, p.value);
    }
  }

  /** The same statement, or the last one of `t` with more behind it. */
  ghost predicate Alike(t: string, a: Stmt, c: Stmt, more: string) {
    match a
    case Txn(k, _) => c.Txn? && c.keyword == k
    case Work(text) => c == a || (c == Work(text + more) && exists i: nat :: i <= |t| && text == t[i..])
  }

  lemma {:induction false} StmtBefore(t: string, m: string, tail: string, g: nat, a: nat)
    requires |t| == |m| && |tail| == |TAIL| && TailOf(tail, g) && a <= |m|
    requires SkipSpace(m, a) < SemicolonFrom(m, a)
    ensures var i, b := SkipSpace(m, a), SemicolonFrom(m, a);
            var b' := if b < |m| then b else |m| + g;
            Alike(t, StmtAt(t, m, i, b), StmtAt(t + TAIL, m + tail, i, b'), TAIL[..g])
  {
    hide PhraseAt, IsPhrase, TailOf, StmtAt, SkipSpace, Alike;
    TailBegins(tail, g);
    var i, b := SkipSpace(m, a), SemicolonFrom(m, a);
    var b' := if b < |m| then b else |m| + g;
    PhraseBefore(m, tail, g, i);
    if k :| PhraseAt(m, i) == Some(k) {
      PhraseEndsBefore(k, m, tail, g, i, b, b');
    }
    TextBefore(t, i, b, g);
    AlikeStmts(t, m, m + tail, i, b, b', TAIL[..g]);
  }

  lemma {:induction false} TextBefore(t: string, i: nat, b: nat, g: nat)
    requires i < b <= |t| && g <= |TAIL|
    ensures b < |t| ==> (t + TAIL)[i..b] == t[i..b]
    ensures b == |t| ==> (t + TAIL)[i..b + g] == t[i..] + TAIL[..g]
  {
  }

  lemma {:induction false} AlikeStmts(t: string, m: string, m': string, i: nat, b: nat, b': nat, more: string)
    requires i < b <= |m| == |t| && b <= b' <= |m'| == |t + TAIL| && PhraseAt(m', i) == PhraseAt(m, i)
    requires forall k :: PhraseAt(m, i) == Some(k) ==> (IsPhrase(k, m', i, b') <==> IsPhrase(k, m, i, b))
    requires (t + TAIL)[i..b'] == if b < |t| then t[i..b] else t[i..] + more
    ensures Alike(t, StmtAt(t, m, i, b), StmtAt(t + TAIL, m', i, b'), more)
  {
    hide PhraseAt, IsPhrase;
    assert b == |t| ==> t[i..b] == t[i..];
  }

  /** Statement by statement alike, and then the commit, if it is left. */
  ghost predicate Followed(t: string, ss: seq<Stmt>, cs: seq<Stmt>, more: string, commits: bool) {
    && |cs| == |ss| + (if commits then 1 else 0)
    && (forall k :: 0 <= k < |ss| ==> Alike(t, ss[k], cs[k], more))
    && (commits ==> cs[|ss|] == Txn(Commit, true))
  }

  lemma {:induction false} FollowedCons(t: string, a: Stmt, c: Stmt, ss: seq<Stmt>, cs: seq<Stmt>, more: string,
                                        commits: bool)
    requires Alike(t, a, c, more) && Followed(t, ss, cs, more, commits)
    ensures Followed(t, [a] + ss, [c] + cs, more, commits)
  {
    hide Alike;
  }

  ghost predicate IsTail(tail: string, g: nat) {
    (tail == TAIL && g == 1) || (tail == LOST && g == 10)
  }

  lemma {:induction false} StmtsBefore(t: string, m: string, tail: string, g: nat, a: nat)
    requires |t| == |m| && IsTail(tail, g) && a <= |m|
    ensures Followed(t, StmtsFrom(t, m, a), StmtsFrom(t + TAIL, m + tail, a), TAIL[..g], tail == TAIL)
    decreases |m| - a
  {
    hide StmtAt, StmtsFrom, SkipSpace, SemicolonFrom, Alike, Followed;
    Tails();
    TailBegins(tail, g);
    var b, i := SemicolonFrom(m, a), SkipSpace(m, a);
    var b' := if b < |m| then b else |m| + g;
    SemicolonBefore(m, tail, a);
    SkipBefore(m, tail, a);
    SkipOrSemicolon(m, a);
    var i' := SkipSpace(m + tail, a);
    Unfold(t, m, a, b, i);
    Unfold(t + TAIL, m + tail, a, b', i');
    var rest, rest' := if b == |m| then [] else StmtsFrom(t, m, b + 1),
                       if b' == |m + tail| then [] else StmtsFrom(t + TAIL, m + tail, b' + 1);
    if b < |m| {
      StmtsBefore(t, m, tail, g, b + 1);
    } else {
      CommitFollows(t, m, tail, g);
    }
    if i < b {
      StmtBefore(t, m, tail, g, a);
      FollowedCons(t, StmtAt(t, m, i, b), StmtAt(t + TAIL, m + tail, i, b'), rest, rest', TAIL[..g], tail == TAIL);
    } else {
      assert [] + rest == rest && [] + rest' == rest';
    }
  }

  lemma {:induction false} SkipOrSemicolon(m: string, a: nat)
    requires a <= |m|
    ensures SkipSpace(m, a) <= SemicolonFrom(m, a)
  {
    var b := SemicolonFrom(m, a);
    assert b < |m| ==> !IsSpace(m[b]);
  }

  /** Behind the text there is the commit, or nothing. */
  lemma {:induction false} CommitFollows(t: string, m: string, tail: string, g: nat)
    requires |t| == |m| && IsTail(tail, g)
    ensures Followed(t, [], if |m| + g == |m + tail| then [] else StmtsFrom(t + TAIL, m + tail, |m| + g + 1),
                     TAIL[..g], tail == TAIL)
  {
    hide StmtsFrom;
    if tail == TAIL {
      StmtsBehind(t, m, TAIL, TAIL, 2);
      CommitIsLast();
    }
  }

  lemma {:induction false} CommitIsLast()
    ensures StmtsFrom(TAIL, TAIL, 2) == [Txn(Commit, true)]
  {
    hide StmtsFrom, SemicolonFrom, SkipSpace, StmtAt;
    TailEnds();
    TailIsCommit();
    Unfold(TAIL, TAIL, 2, 9, 3);
    Unfold(TAIL, TAIL, 10, 10, 10);
  }

  lemma {:induction false} TailEnds()
    ensures SemicolonFrom(TAIL, 2) == 9 && SkipSpace(TAIL, 2) == 3
    ensures SemicolonFrom(TAIL, 10) == 10 && SkipSpace(TAIL, 10) == 10
  {
    SemicolonTo(TAIL, 2, 9);
    assert SkipSpace(TAIL, 3) == 3;
  }

  lemma {:induction false} TailIsCommit()
    ensures StmtAt(TAIL, TAIL, 3, 9) == Txn(Commit, true)
  {
    hide PhraseAt, StmtAt;
    assert HasWord(TAIL, 3, "COMMIT");
    assert IsPhrase(Commit, TAIL, 3, 9) by {
      assert SkipSpace(TAIL, 9) == 9;
    }
    PhraseDecides(TAIL, TAIL, 3, 9, Commit);
  }

  lemma {:induction false} BeginIsFirst(sql: string, x: string)
    requires |sql| == |x|
    ensures StmtsFrom(HEAD + sql, HEAD + x, 0) == [Txn(Begin, true)] + StmtsFrom(sql, x, 0)
  {
    hide StmtsFrom, SemicolonFrom, SkipSpace, StmtAt;
    var v, y := HEAD + sql, HEAD + x;
    HeadEnds(y);
    HeadIsBegin(v, y);
    Unfold(v, y, 0, 5, 0);
    BlankLeadIn(y, 6, 7);
    SkipOrSemicolon(y, 7);
    Unfold(v, y, 6, SemicolonFrom(y, 7), SkipSpace(y, 7));
    Unfold(v, y, 7, SemicolonFrom(y, 7), SkipSpace(y, 7));
    StmtsBehind(HEAD, HEAD, sql, x, 0);
  }

  lemma {:induction false} HeadEnds(y: string)
    requires HEAD <= y
    ensures SemicolonFrom(y, 0) == 5 && SkipSpace(y, 0) == 0 && IsSpace(y[6])
  {
    assert forall j :: 0 <= j < 7 ==> y[j] == HEAD[j];
    SemicolonTo(y, 0, 5);
  }

  lemma {:induction false} HeadIsBegin(v: string, y: string)
    requires HEAD <= y && |v| == |y|
    ensures StmtAt(v, y, 0, 5) == Txn(Begin, true)
  {
    hide PhraseAt, StmtAt;
    assert forall j :: 0 <= j < 7 ==> y[j] == HEAD[j];
    assert HasWord(y, 0, "BEGIN");
    assert IsPhrase(Begin, y, 0, 5) by {
      assert SkipSpace(y, 5) == 5;
    }
    PhraseDecides(v, y, 0, 5, Begin);
  }

  /**
   * What the composed text asks for: `BEGIN`, the statements of the text, and `COMMIT`, unless a
   * comment swallows it.
   */
  lemma {:induction false} ComposedStatements(t: string)
    ensures Compose(t) == "BEGIN; " + t + " ; COMMIT;"
    ensures var cs := Statements(Compose(t));
            && cs != [] && cs[0] == Txn(Begin, true)
            && Followed(t, Statements(t), cs[1..], if CommentOpen(t) then TAIL else " ", !CommentOpen(t))
  {
    hide StmtsFrom, Mask, CommentOpen, Followed;
    var m, tail := Mask(t), if CommentOpen(t) then LOST else TAIL;
    MaskOfComposed(t);
    assert Compose(t) == HEAD + (t + TAIL) && Framed(m, tail) == HEAD + (m + tail);
    BeginIsFirst(t + TAIL, m + tail);
    StmtsBefore(t, m, tail, if CommentOpen(t) then 10 else 1, 0);
    assert TAIL[..10] == TAIL && TAIL[..1] == " ";
    assert LOST != TAIL by { assert LOST[1] != TAIL[1]; }
    var rest := StmtsFrom(t + TAIL, m + tail, 0);
    assert ([Txn(Begin, true)] + rest)[1..] == rest;
  }
}
