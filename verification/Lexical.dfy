/**
 * Masking against a grammar: in a script made of code, dollar-quoted bodies, comments and
 * literals it blanks exactly the bodies, the comments and the literals.
 */
module Lexical {
  import opened Text
  import opened Scanner
  import opened Masking
  import opened Stripper
  import opened Residue

  // ----- scripts

  datatype Piece =
    | Code(text: string)
    | DollarBody(tag: string, body: string)
    | BlockComment(body: string)
    | LineComment(body: string)
    | Literal(body: string)
    | Gap(text: string)   // blanks

  function TextOf(p: Piece): (s: string) {
    match p
    case Code(text) => text
    case DollarBody(tag, body) => "$" + tag + "$" + body + "$" + tag + "$"
    case BlockComment(body) => "/*" + body + "*/"
    case LineComment(body) => "--" + body
    case Literal(body) => "'" + body + "'"
    case Gap(text) => text
  }

  function Render(ps: seq<Piece>): (s: string) {
    if ps == [] then [] else TextOf(ps[0]) + Render(ps[1..])
  }

  ghost predicate Lacks(s: string, c: char) {
    forall x :: 0 <= x < |s| ==> s[x] != c
  }

  ghost predicate PairAt(s: string, x: int, c: char, d: char) {
    0 <= x < |s| - 1 && s[x] == c && s[x + 1] == d
  }

  ghost predicate LacksPair(s: string, c: char, d: char) {
    forall x :: !PairAt(s, x, c, d)
  }

  predicate Letter(c: char) {
    'a' <= c <= 'z' || 'A' <= c <= 'Z' || c == '_'
  }

  /** Empty, or an identifier. */
  ghost predicate IsTag(tag: string) {
    tag == [] || (Letter(tag[0]) && forall x :: 0 <= x < |tag| ==> Letter(tag[x]) || '0' <= tag[x] <= '9')
  }

  /** Quotes come in pairs. */
  predicate Paired(s: string) {
    if s == [] then true
    else if s[0] != '\'' then Paired(s[1..])
    else |s| >= 2 && s[1] == '\'' && Paired(s[2..])
  }

  ghost predicate SoundPiece(p: Piece) {
    match p
    case Code(text) =>
      text != [] && Lacks(text, '$') && Lacks(text, '\'') && LacksPair(text, '/', '*') && LacksPair(text, '-', '-')
    case DollarBody(tag, body) => IsTag(tag) && Lacks(body, '$')
    case BlockComment(body) => Lacks(body, '$') && LacksPair(body, '*', '/')
    case LineComment(body) => Lacks(body, '$') && Lacks(body, '\n') && LacksPair(body, '/', '*')
    case Literal(body) => Paired(body) && Lacks(body, '$') && LacksPair(body, '/', '*') && LacksPair(body, '-', '-')
    case Gap(text) => forall x :: 0 <= x < |text| ==> text[x] == ' ' || text[x] == '\n'
  }

  /** A piece ends where it ends: the text behind it does not go on with it. */
  ghost predicate EndsBefore(p: Piece, next: string) {
    next != [] ==>
      match p
      case Code(text) =>
        text != [] ==>
          var last := text[|text| - 1];
          !(last == '/' && next[0] == '*') && !(last == '-' && next[0] == '-')
      case LineComment(_) => next[0] == '\n'
      case Literal(_) => next[0] != '\''
      case _ => true
  }

  ghost predicate Sound(ps: seq<Piece>, post: string) {
    ps == [] || (SoundPiece(ps[0]) && EndsBefore(ps[0], Render(ps[1..]) + post) && Sound(ps[1..], post))
  }

  function KindOf(p: Piece): (k: Option<Pattern>) {
    match p
    case DollarBody(_, _) => Some(Dollar)
    case BlockComment(_) => Some(Block)
    case LineComment(_) => Some(Line)
    case Literal(_) => Some(Quote)
    case _ => None
  }

  function Rank(k: Pattern): (n: nat) {
    match k case Dollar => 0 case Block => 1 case Line => 2 case Quote => 3 case Control => 4
  }

  /** The pieces that the pass for `k` can meet: those of the earlier passes are gone. */
  ghost predicate Meets(k: Pattern, p: Piece) {
    k != Control && (KindOf(p).Some? ==> Rank(k) <= Rank(KindOf(p).value))
  }

  function Blanks(s: string): (t: string)
    ensures |t| == |s|
  {
    seq(|s|, x requires 0 <= x < |s| => if s[x] == '\n' then '\n' else ' ')
  }

  function Without(k: Pattern, ps: seq<Piece>): (r: seq<Piece>)
    ensures |r| == |ps|
  {
    seq(|ps|, x requires 0 <= x < |ps| => if KindOf(ps[x]) == Some(k) then Gap(Blanks(TextOf(ps[x]))) else ps[x])
  }

  /** Everything but the code, blanked. */
  function Masked(ps: seq<Piece>): (r: seq<Piece>)
    ensures |r| == |ps|
  {
    seq(|ps|, x requires 0 <= x < |ps| => if KindOf(ps[x]).Some? then Gap(Blanks(TextOf(ps[x]))) else ps[x])
  }

  // ----- a piece of the pass's own kind is one match

  lemma {:induction false} TagEnds(s: string, i: nat, tag: string)
    requires IsTag(tag) && i + |tag| < |s| && s[i + |tag|] == '$'
    requires forall x :: 0 <= x < |tag| ==> s[i + x] == tag[x]
    ensures TagEnd(s, i) == i + |tag|
  {
    if tag != [] {
      assert s[i] == tag[0];
      forall x | i + 1 <= x < i + |tag|
        ensures IsWord(s[x])
      {
        assert s[i + (x - i)] == tag[x - i];
      }
      WordEndUnique(s, i + 1, i + |tag|);
    }
  }

  lemma {:induction false} DollarCloses(s: string, k: nat, e: nat, tag: string)
    requires k <= e && e + |tag| + 1 < |s| && forall x :: k <= x < e ==> s[x] != '$'
    requires TagCloserAt(s, e, tag)
    ensures DollarClose(s, k, tag) == Some(e + |tag| + 2)
    decreases e - k
  {
    if k < e {
      DollarCloses(s, k + 1, e, tag);
    }
  }

  lemma {:induction false} DollarText(tag: string, body: string)
    ensures var t, n := TextOf(DollarBody(tag, body)), |tag|;
            && |t| == n + |body| + n + 4
            && t[..n + 2] == "$" + tag + "$" && t[n + 2..n + 2 + |body|] == body
            && t[n + 2 + |body|..] == "$" + tag + "$"
  {
  }

  lemma {:induction false} DollarOpens(s: string, i: nat, tag: string)
    requires IsTag(tag) && i + |tag| + 2 <= |s| && s[i..i + |tag| + 2] == "$" + tag + "$"
    ensures TagEnd(s, i + 1) == i + 1 + |tag| && s[i + 1..i + 1 + |tag|] == tag
    ensures s[i] == '$' && s[i + 1 + |tag|] == '$' && TagCloserAt(s, i, tag)
  {
    var q, n := s[i..i + |tag| + 2], |tag|;
    assert q[0] == '$' && q[n + 1] == '$' && q[1..n + 1] == tag;
    assert forall x :: 0 <= x < n ==> s[i + 1 + x] == q[1 + x] == tag[x];
    TagEnds(s, i + 1, tag);
  }

  lemma {:induction false} DollarAt(s: string, i: nat, tag: string, body: string)
    requires IsTag(tag) && Lacks(body, '$') && HasAt(s, i, "$" + tag + "$")
    requires HasAt(s, i + |tag| + 2, body) && HasAt(s, i + |tag| + 2 + |body|, "$" + tag + "$")
    ensures i < |s| && DollarEnd(s, i) == Some(i + |tag| + 2 + |body| + |tag| + 2)
  {
    hide TagEnd, DollarClose, TagCloserAt, IsTag;
    var n := |tag|;
    var e := i + n + 2 + |body|;
    DollarOpens(s, i, tag);
    DollarOpens(s, e, tag);
    forall x | i + n + 2 <= x < e
      ensures s[x] != '$'
    {
      assert s[x] == s[i + n + 2..e][x - i - n - 2];
    }
    DollarCloses(s, i + n + 2, e, tag);
  }

  lemma {:induction false} InMiddle(pre: string, t: string, post: string, a: nat, b: nat)
    requires a <= b <= |t|
    ensures HasAt(pre + t + post, |pre| + a, t[a..b])
  {
  }

  lemma {:induction false} DollarMatches(pre: string, tag: string, body: string, post: string)
    requires IsTag(tag) && Lacks(body, '$')
    ensures var t := TextOf(DollarBody(tag, body));
            DollarEnd(pre + t + post, |pre|) == Some(|pre| + |t|)
  {
    hide TextOf, DollarEnd, HasAt, IsTag, Lacks;
    var t, n := TextOf(DollarBody(tag, body)), |tag|;
    DollarText(tag, body);
    InMiddle(pre, t, post, 0, n + 2);
    InMiddle(pre, t, post, n + 2, n + 2 + |body|);
    InMiddle(pre, t, post, n + 2 + |body|, |t|);
    assert t[0..n + 2] == t[..n + 2] && t[n + 2 + |body|..|t|] == t[n + 2 + |body|..];
    DollarAt(pre + t + post, |pre|, tag, body);
  }

  lemma {:induction false} BlockCloses(s: string, k: nat, e: nat)
    requires k <= e && e + 1 < |s| && s[e] == '*' && s[e + 1] == '/'
    requires forall x :: k <= x < e ==> !(s[x] == '*' && s[x + 1] == '/')
    ensures BlockClose(s, k) == Some(e + 2)
    decreases e - k
  {
    if k < e {
      BlockCloses(s, k + 1, e);
    }
  }

  lemma {:induction false} BlockMatches(pre: string, body: string, post: string)
    requires LacksPair(body, '*', '/')
    ensures var t := TextOf(BlockComment(body));
            BlockEnd(pre + t + post, |pre|) == Some(|pre| + |t|)
  {
    var t := TextOf(BlockComment(body));
    var s, i := pre + t + post, |pre|;
    var e := i + 2 + |body|;
    assert forall x :: 0 <= x < |t| ==> s[i + x] == t[x];
    assert s[i] == t[0] && s[i + 1] == t[1] && s[e] == t[e - i] && s[e + 1] == t[e + 1 - i];
    forall x | i + 2 <= x < e
      ensures !(s[x] == '*' && s[x + 1] == '/')
    {
      assert s[x] == t[x - i] == body[x - i - 2];
      assert s[x + 1] == t[x + 1 - i];
      assert !PairAt(body, x - i - 2, '*', '/');
    }
    BlockCloses(s, i + 2, e);
  }

  lemma {:induction false} LineCloses(s: string, k: nat, e: nat)
    requires k <= e <= |s| && (e < |s| ==> s[e] == '\n') && forall x :: k <= x < e ==> s[x] != '\n'
    ensures LineClose(s, k) == e
    decreases e - k
  {
    if k < e {
      LineCloses(s, k + 1, e);
    }
  }

  lemma {:induction false} LineMatches(pre: string, body: string, post: string)
    requires Lacks(body, '\n') && (post != [] ==> post[0] == '\n')
    ensures var t := TextOf(LineComment(body));
            LineEnd(pre + t + post, |pre|) == Some(|pre| + |t|)
  {
    var t := TextOf(LineComment(body));
    var s, i := pre + t + post, |pre|;
    assert forall x :: 0 <= x < |t| ==> s[i + x] == t[x];
    assert s[i] == t[0] && s[i + 1] == t[1];
    forall x | i + 2 <= x < i + |t|
      ensures s[x] != '\n'
    {
      assert s[x] == t[x - i] == body[x - i - 2];
    }
    LineCloses(s, i + 2, i + |t|);
  }

  lemma {:induction false} QuoteCloses(before: string, body: string, post: string, last: Option<nat>)
    requires Paired(body) && (post != [] ==> post[0] != '\'') && (last.Some? ==> last.value < |before|)
    ensures QuoteClose(before + body + "'" + post, |before|, last) == Some(|before| + |body| + 1)
    decreases |body|
  {
    var s := before + body + "'" + post;
    if body == [] {
      assert s[|before|] == '\'';
    } else {
      assert s[|before|] == body[0];
      var n := if body[0] == '\'' then 2 else 1;
      assert s == (before + body[..n]) + body[n..] + "'" + post;
      if n == 2 {
        assert s[|before| + 1] == body[1];
      }
      QuoteCloses(before + body[..n], body[n..], post, if n == 2 then Some(|before| + 1) else last);
    }
  }

  lemma {:induction false} QuoteMatches(pre: string, body: string, post: string)
    requires Paired(body) && (post != [] ==> post[0] != '\'')
    ensures var t := TextOf(Literal(body));
            QuoteEnd(pre + t + post, |pre|) == Some(|pre| + |t|)
  {
    var t := TextOf(Literal(body));
    assert pre + t + post == (pre + "'") + body + "'" + post;
    QuoteCloses(pre + "'", body, post, None);
  }

  lemma {:induction false} PieceMatches(k: Pattern, pre: string, p: Piece, post: string)
    requires KindOf(p) == Some(k) && SoundPiece(p) && EndsBefore(p, post)
    ensures MatchEnd(k, pre + TextOf(p) + post, |pre|) == Some(|pre| + |TextOf(p)|)
  {
    hide DollarEnd, BlockEnd, LineEnd, QuoteEnd, TextOf, Lacks, LacksPair, Paired, IsTag;
    match p
    case DollarBody(tag, body) => DollarMatches(pre, tag, body, post);
    case BlockComment(body) => BlockMatches(pre, body, post);
    case LineComment(body) => LineMatches(pre, body, post);
    case Literal(body) => QuoteMatches(pre, body, post);
  }

  // ----- in any other piece no match begins

  /** The two characters with which a match of `k` begins; one of them decides where the second does not. */
  ghost predicate MayBegin(k: Pattern, s: string, x: int) {
    match k
    case Dollar => 0 <= x < |s| && s[x] == '$'
    case Block => PairAt(s, x, '/', '*')
    case Line => PairAt(s, x, '-', '-')
    case Quote => 0 <= x < |s| && s[x] == '\''
    case Control => true
  }

  lemma {:induction false} NothingBegins(k: Pattern, s: string, x: nat)
    requires k != Control && x < |s| && !MayBegin(k, s, x)
    ensures MatchEnd(k, s, x).None?
  {
  }

  lemma {:induction false} InsidePiece(k: Pattern, p: Piece, x: int)
    requires Meets(k, p) && KindOf(p) != Some(k) && SoundPiece(p)
    ensures !MayBegin(k, TextOf(p), x)
  {
    var t := TextOf(p);
    match p {
      case BlockComment(body) =>
        assert k == Dollar;
        assert 2 <= x < 2 + |body| ==> t[x] == body[x - 2];
      case LineComment(body) =>
        assert k == Dollar || k == Block;
        assert 2 <= x < |t| ==> t[x] == body[x - 2];
        assert 2 <= x < |t| - 1 ==> t[x + 1] == body[x - 1] && !PairAt(body, x - 2, '/', '*');
      case Literal(body) =>
        assert 1 <= x < 1 + |body| ==> t[x] == body[x - 1];
        assert 1 <= x < |body| ==> t[x + 1] == body[x];
        assert !PairAt(body, x - 1, '/', '*') && !PairAt(body, x - 1, '-', '-');
        assert k == Dollar || k == Block || k == Line;
      case _ =>
    }
  }

  /** Nor across its end. */
  lemma {:induction false} NoneBeginsIn(k: Pattern, pre: string, p: Piece, post: string, x: nat)
    requires Meets(k, p) && KindOf(p) != Some(k) && SoundPiece(p) && EndsBefore(p, post)
    requires |pre| <= x < |pre| + |TextOf(p)|
    ensures MatchEnd(k, pre + TextOf(p) + post, x).None?
  {
    hide MatchEnd;
    var t := TextOf(p);
    var s, y := pre + t + post, x - |pre|;
    InsidePiece(k, p, y);
    assert s[x] == t[y];
    if y + 1 < |t| {
      assert s[x + 1] == t[y + 1];
    } else {
      assert post != [] ==> s[x + 1] == post[0];
      LastChar(p);
    }
    NothingBegins(k, s, x);
  }

  lemma {:induction false} LastChar(p: Piece)
    ensures var t := TextOf(p);
            match p
            case Code(text) => t == text
            case LineComment(_) => t != []
            case Literal(_) => t[|t| - 1] == '\''
            case BlockComment(_) => t[|t| - 1] == '/'
            case DollarBody(_, _) => t[|t| - 1] == '$'
            case Gap(text) => t == text
  {
  }

  // ----- one pass

  lemma {:induction false} PassOver(k: Pattern, s: string, i: nat, n: nat, j: nat)
    requires i <= n <= |s| && j < |s| && forall x :: i <= x < n ==> MatchEnd(k, s, x).None?
    ensures Marked(k, s, i, j) == Marked(k, s, n, j)
    decreases n - i
  {
    hide MatchEnd;
    if i < n {
      PassOver(k, s, i + 1, n, j);
    }
  }

  predicate HiddenAt(k: Pattern, ps: seq<Piece>, x: nat) {
    ps != [] &&
    if x < |TextOf(ps[0])| then KindOf(ps[0]) == Some(k) else HiddenAt(k, ps[1..], x - |TextOf(ps[0])|)
  }

  lemma {:induction false} PassMarks(k: Pattern, pre: string, ps: seq<Piece>, post: string, j: nat)
    requires Sound(ps, post) && forall p :: p in ps ==> Meets(k, p)
    requires |pre| <= j < |pre| + |Render(ps)|
    ensures Marked(k, pre + Render(ps) + post, |pre|, j) <==> HiddenAt(k, ps, j - |pre|)
    decreases |ps|
  {
    hide MatchEnd, SoundPiece, EndsBefore, TextOf, Meets, KindOf;
    var p, rest := ps[0], ps[1..];
    var t, s, next := TextOf(p), pre + Render(ps) + post, Render(rest) + post;
    assert s == pre + t + next && s == (pre + t) + Render(rest) + post;
    assert p in ps && forall q :: q in rest ==> q in ps;
    if KindOf(p) == Some(k) {
      PieceMatches(k, pre, p, next);
    } else {
      forall x | |pre| <= x < |pre| + |t|
        ensures MatchEnd(k, s, x).None?
      {
        NoneBeginsIn(k, pre, p, next, x);
      }
      PassOver(k, s, |pre|, |pre| + |t|, j);
    }
    if |pre| + |t| <= j {
      PassMarks(k, pre + t, rest, post, j);
    }
  }

  lemma {:induction false} WithoutTail(k: Pattern, ps: seq<Piece>)
    requires ps != []
    ensures Without(k, ps)[1..] == Without(k, ps[1..])
    ensures Without(k, ps)[0] == if KindOf(ps[0]) == Some(k) then Gap(Blanks(TextOf(ps[0]))) else ps[0]
    ensures |TextOf(Without(k, ps)[0])| == |TextOf(ps[0])|
  {
  }

  lemma {:induction false} WithoutChars(k: Pattern, ps: seq<Piece>, x: nat)
    requires x < |Render(ps)|
    ensures |Render(Without(k, ps))| == |Render(ps)|
    ensures Render(Without(k, ps))[x] == if HiddenAt(k, ps, x) && Render(ps)[x] != '\n' then ' ' else Render(ps)[x]
    decreases |ps|
  {
    hide TextOf, KindOf, Without;
    WithoutTail(k, ps);
    WithoutLength(k, ps);
    var t, rest := TextOf(ps[0]), ps[1..];
    if |t| <= x {
      WithoutChars(k, rest, x - |t|);
    } else if KindOf(ps[0]) == Some(k) {
      assert TextOf(Gap(Blanks(t))) == Blanks(t) by { GapText(Blanks(t)); }
    }
  }

  lemma {:induction false} GapText(s: string)
    ensures TextOf(Gap(s)) == s
  {
  }

  lemma {:induction false} WithoutLength(k: Pattern, ps: seq<Piece>)
    ensures |Render(Without(k, ps))| == |Render(ps)|
    decreases |ps|
  {
    hide TextOf, KindOf, Without;
    if ps != [] {
      WithoutTail(k, ps);
      WithoutLength(k, ps[1..]);
    } else {
      assert Without(k, ps) == [];
    }
  }

  /** What a pass leaves of the text behind: of each character itself, or its blank. */
  ghost predicate Faded(s: string, t: string) {
    |t| == |s| && forall x :: 0 <= x < |s| ==> t[x] == s[x] || (t[x] == ' ' && s[x] != '\n')
  }

  lemma {:induction false} PassText(k: Pattern, ps: seq<Piece>, post: string) returns (post': string)
    requires Sound(ps, post) && forall p :: p in ps ==> Meets(k, p)
    ensures Pass(k, Render(ps) + post) == Render(Without(k, ps)) + post' && Faded(post, post')
  {
    hide Sound, Meets, HiddenAt, Without, Marked, Render;
    var s, n := Render(ps) + post, |Render(ps)|;
    assert [] + Render(ps) + post == s;
    post' := Pass(k, s)[n..];
    WithoutLength(k, ps);
    forall x | 0 <= x < n
      ensures Pass(k, s)[x] == Render(Without(k, ps))[x]
    {
      PassMarks(k, [], ps, post, x);
      WithoutChars(k, ps, x);
      assert s[x] == Render(ps)[x];
    }
    assert Pass(k, s) == Pass(k, s)[..n] + post';
  }

  lemma {:induction false} RenderFades(k: Pattern, ps: seq<Piece>, post: string, post': string)
    requires Faded(post, post')
    ensures Faded(Render(ps) + post, Render(Without(k, ps)) + post')
  {
    hide Render, Without, HiddenAt;
    WithoutLength(k, ps);
    forall x | 0 <= x < |Render(ps)|
      ensures var c, d := Render(ps)[x], Render(Without(k, ps))[x]; d == c || (d == ' ' && c != '\n')
    {
      WithoutChars(k, ps, x);
    }
  }

  lemma {:induction false} EndsFaded(p: Piece, next: string, next': string)
    requires EndsBefore(p, next) && Faded(next, next')
    ensures EndsBefore(p, next')
  {
  }

  lemma {:induction false} SoundAfter(k: Pattern, ps: seq<Piece>, post: string, post': string)
    requires Sound(ps, post) && Faded(post, post')
    ensures Sound(Without(k, ps), post')
    decreases |ps|
  {
    hide SoundPiece, EndsBefore, TextOf, KindOf, Faded, Render, Without;
    if ps != [] {
      WithoutTail(k, ps);
      SoundAfter(k, ps[1..], post, post');
      RenderFades(k, ps[1..], post, post');
      EndsFaded(ps[0], Render(ps[1..]) + post, Render(Without(k, ps[1..])) + post');
      GapIsSound(TextOf(ps[0]), Render(Without(k, ps[1..])) + post');
    } else {
      assert Without(k, ps) == [];
    }
  }

  lemma {:induction false} GapIsSound(t: string, next: string)
    ensures SoundPiece(Gap(Blanks(t))) && EndsBefore(Gap(Blanks(t)), next)
  {
  }

  // ----- the four passes

  lemma {:induction false} AllWithout(ps: seq<Piece>)
    ensures Without(Quote, Without(Line, Without(Block, Without(Dollar, ps)))) == Masked(ps)
    ensures forall p :: p in ps ==> Meets(Dollar, p)
    ensures forall p :: p in Without(Dollar, ps) ==> Meets(Block, p)
    ensures forall p :: p in Without(Block, Without(Dollar, ps)) ==> Meets(Line, p)
    ensures forall p :: p in Without(Line, Without(Block, Without(Dollar, ps))) ==> Meets(Quote, p)
  {
  }

  /** A script at the head of any text is masked as the script says. */
  lemma {:induction false} HeadIsLexical(ps: seq<Piece>, post: string) returns (post': string)
    requires Sound(ps, post)
    ensures Mask(Render(ps) + post) == Render(Masked(ps)) + post' && |Render(Masked(ps))| == |Render(ps)|
    ensures |post'| == |post|
  {
    hide Sound, Meets, Without, Masked, Pass, Render;
    AllWithout(ps);
    var p1 := PassText(Dollar, ps, post);
    SoundAfter(Dollar, ps, post, p1);
    var ps1 := Without(Dollar, ps);
    var p2 := PassText(Block, ps1, p1);
    SoundAfter(Block, ps1, p1, p2);
    var ps2 := Without(Block, ps1);
    var p3 := PassText(Line, ps2, p2);
    SoundAfter(Line, ps2, p2, p3);
    var ps3 := Without(Line, ps2);
    post' := PassText(Quote, ps3, p3);
    WithoutLength(Dollar, ps);
    WithoutLength(Block, ps1);
    WithoutLength(Line, ps2);
    WithoutLength(Quote, ps3);
  }

  /**
   * Masking a script blanks its dollar-quoted bodies, comments and literals, delimiters
   * included, and leaves its code as it is.
   */
  lemma {:induction false} MaskIsLexical(ps: seq<Piece>)
    requires Sound(ps, [])
    ensures Mask(Render(ps)) == Render(Masked(ps))
  {
    hide Sound, Masked, Mask, Render;
    var post' := HeadIsLexical(ps, []);
    assert Render(ps) + [] == Render(ps) && Render(Masked(ps)) + post' == Render(Masked(ps));
  }

  // ----- whatever comes behind

  lemma {:induction false} RenderThen(ps: seq<Piece>, p: Piece)
    ensures Render(ps + [p]) == Render(ps) + TextOf(p)
    decreases |ps|
  {
    hide TextOf;
    if ps == [] {
      assert [] + [p] == [p] && [p][1..] == [];
      assert Render([p]) == TextOf(p) + [] == [] + TextOf(p);
    } else {
      assert (ps + [p])[1..] == ps[1..] + [p] && (ps + [p])[0] == ps[0];
      RenderThen(ps[1..], p);
    }
  }

  /** What transaction control begins with is no blank. */
  lemma {:induction false} NoSpanAtBlank(m: string, x: nat)
    requires x < |m| && (m[x] == ' ' || m[x] == '\n')
    ensures forall k :: 0 <= k < |SpansIn(m, 0)| ==> SpansIn(m, 0)[k].start != x
  {
    hide SpansIn, ControlEnd;
    FindingsAreTheMatches(m, 0);
    forall k | 0 <= k < |SpansIn(m, 0)|
      ensures SpansIn(m, 0)[k].start != x
    {
      var span := SpansIn(m, 0)[k];
      ControlShape(m, span.start, span.end);
    }
  }

  /**
   * Behind any script and before any text: every character of a dollar-quoted body, a
   * comment or a literal is blank in the masked text, and no finding begins in it.
   */
  lemma {:induction false} QuotedIsHidden(pre: seq<Piece>, p: Piece, post: string, x: nat)
    requires Sound(pre + [p], post) && KindOf(p).Some?
    requires |Render(pre)| <= x < |Render(pre)| + |TextOf(p)|
    ensures var m := Mask(Render(pre) + TextOf(p) + post);
            && (m[x] == ' ' || m[x] == '\n')
            && forall k :: 0 <= k < |SpansIn(m, 0)| ==> SpansIn(m, 0)[k].start != x
  {
    hide Sound, Mask, SpansIn, TextOf, KindOf, Render;
    var ps := pre + [p];
    RenderThen(pre, p);
    var post' := HeadIsLexical(ps, post);
    assert Masked(ps) == Masked(pre) + [Gap(Blanks(TextOf(p)))];
    RenderThen(Masked(pre), Gap(Blanks(TextOf(p))));
    GapText(Blanks(TextOf(p)));
    var m := Mask(Render(pre) + TextOf(p) + post);
    assert |Render(Masked(pre))| == |Render(pre)|;
    assert m[x] == Blanks(TextOf(p))[x - |Render(pre)|];
    NoSpanAtBlank(m, x);
  }

  /** A dollar-quoted body comes before everything else: only another `$` before it can hide it. */
  lemma {:induction false} DollarIsHidden(pre: string, tag: string, body: string, post: string, x: nat)
    requires Lacks(pre, '$') && Lacks(body, '$') && IsTag(tag)
    requires |pre| <= x < |pre| + |tag| + |body| + |tag| + 4
    ensures var m := Mask(pre + ("$" + tag + "$" + body + "$" + tag + "$") + post);
            && (m[x] == ' ' || m[x] == '\n')
            && forall k :: 0 <= k < |SpansIn(m, 0)| ==> SpansIn(m, 0)[k].start != x
  {
    hide DollarEnd, SpansIn;
    var t := TextOf(DollarBody(tag, body));
    var s := pre + t + post;
    forall y | 0 <= y < |pre|
      ensures MatchEnd(Dollar, s, y).None?
    {
      assert s[y] == pre[y];
      NothingBegins(Dollar, s, y);
    }
    PassOver(Dollar, s, 0, |pre|, x);
    DollarMatches(pre, tag, body, post);
    assert Marked(Dollar, s, |pre|, x);
    MaskedStaysBlank(s, x);
    NoSpanAtBlank(Mask(s), x);
  }

  lemma {:induction false} MaskedStaysBlank(s: string, x: nat)
    requires x < |s| && Marks(Dollar, s)[x]
    ensures Mask(s)[x] == ' ' || Mask(s)[x] == '\n'
  {
    hide Marks;
    var a := Pass(Dollar, s);
    var b := Pass(Block, a);
    var c := Pass(Line, b);
    assert a[x] == BlankChar(s[x]);
    PassIsBlanking(Block, a);
    PassIsBlanking(Line, b);
    PassIsBlanking(Quote, c);
  }

  /** A stretch at the head in which no match of a pass begins stays. */
  lemma {:induction false} PassKeepsHead(k: Pattern, s: string, n: nat)
    requires n <= |s| && forall x :: 0 <= x < n ==> MatchEnd(k, s, x).None?
    ensures |Pass(k, s)| == |s| && Pass(k, s)[..n] == s[..n]
  {
    hide MatchEnd;
    forall x | 0 <= x < n
      ensures !Marked(k, s, 0, x)
    {
      PassOver(k, s, 0, n, x);
    }
  }

  lemma {:induction false} NoDollarBegins(s: string, n: nat)
    requires n <= |s| && Lacks(s[..n], '$')
    ensures forall x :: 0 <= x < n ==> MatchEnd(Dollar, s, x).None?
  {
    forall x | 0 <= x < n
      ensures MatchEnd(Dollar, s, x).None?
    {
      assert s[..n][x] == s[x];
      NothingBegins(Dollar, s, x);
    }
  }

  lemma {:induction false} NoPairBegins(k: Pattern, s: string, n: nat)
    requires k == Block || k == Line
    requires n < |s| && LacksPair(s[..n + 1], if k == Block then '/' else '-', if k == Block then '*' else '-')
    ensures forall x :: 0 <= x < n ==> MatchEnd(k, s, x).None?
  {
    var c, d := if k == Block then '/' else '-', if k == Block then '*' else '-';
    forall x | 0 <= x < n
      ensures MatchEnd(k, s, x).None?
    {
      assert !PairAt(s[..n + 1], x, c, d);
      NothingBegins(k, s, x);
    }
  }

  lemma {:induction false} HitIsMarked(k: Pattern, s: string, i: nat, e: nat, x: nat)
    requires i <= x < e <= |s| && MatchEnd(k, s, i) == Some(e)
    requires forall y :: 0 <= y < i ==> MatchEnd(k, s, y).None?
    ensures Pass(k, s)[x] == BlankChar(s[x])
  {
    hide MatchEnd;
    PassOver(k, s, 0, i, x);
    assert Marked(k, s, i, x);
  }

  lemma {:induction false} LacksStill(pre: string)
    requires LacksPair(pre, '/', '*')
    ensures LacksPair(pre + "/", '/', '*')
  {
    forall x
      ensures !PairAt(pre + "/", x, '/', '*')
    {
      assert !PairAt(pre, x, '/', '*');
    }
  }

  /** A block comment behind any text without a dollar sign or an opener of its own kind. */
  lemma {:induction false} BlockIsHidden(pre: string, body: string, post: string, x: nat)
    requires Lacks(pre, '$') && LacksPair(pre, '/', '*') && Lacks(body, '$') && LacksPair(body, '*', '/')
    requires |pre| <= x < |pre| + |body| + 4
    ensures var m := Mask(pre + ("/*" + body + "*/") + post);
            && (m[x] == ' ' || m[x] == '\n')
            && forall k :: 0 <= k < |SpansIn(m, 0)| ==> SpansIn(m, 0)[k].start != x
  {
    hide SpansIn, MatchEnd, Marks;
    var t := "/*" + body + "*/";
    var s, n := pre + t + post, |pre| + |t|;
    assert s[..n] == pre + t;
    NoDollarBegins(s, n);
    PassKeepsHead(Dollar, s, n);
    var a := Pass(Dollar, s);
    assert a == pre + t + a[n..];
    assert a[..|pre| + 1] == pre + "/";
    LacksStill(pre);
    NoPairBegins(Block, a, |pre|);
    PieceMatches(Block, pre, BlockComment(body), a[n..]);
    HitIsMarked(Block, a, |pre|, n, x);
    var b := Pass(Block, a);
    PassIsBlanking(Line, b);
    PassIsBlanking(Quote, Pass(Line, b));
    NoSpanAtBlank(Mask(s), x);
  }

  /** A line comment behind any text without a dollar sign, an opener of a block comment, or one of its own. */
  lemma {:induction false} LineIsHidden(pre: string, body: string, post: string, x: nat)
    requires Lacks(pre, '$') && LacksPair(pre, '/', '*') && LacksPair(pre + "-", '-', '-')
    requires Lacks(body, '$') && LacksPair(body, '/', '*') && Lacks(body, '\n') && (post != [] ==> post[0] == '\n')
    requires |pre| <= x < |pre| + |body| + 2
    ensures var m := Mask(pre + ("--" + body) + post);
            && (m[x] == ' ' || m[x] == '\n')
            && forall k :: 0 <= k < |SpansIn(m, 0)| ==> SpansIn(m, 0)[k].start != x
  {
    hide SpansIn, MatchEnd, Marks;
    var t := "--" + body;
    var s, n := pre + t + post, |pre| + |t|;
    assert s[..n] == pre + t;
    NoDollarBegins(s, n);
    PassKeepsHead(Dollar, s, n);
    var a := Pass(Dollar, s);
    NoBlockBegins(pre, body, a);
    PassKeepsHead(Block, a, n);
    var b := Pass(Block, a);
    PassIsBlanking(Dollar, s);
    PassIsBlanking(Block, a);
    assert b == pre + t + b[n..];
    assert b[..|pre| + 1] == pre + "-";
    NoPairBegins(Line, b, |pre|);
    PieceMatches(Line, pre, LineComment(body), b[n..]);
    HitIsMarked(Line, b, |pre|, n, x);
    PassIsBlanking(Quote, Pass(Line, b));
    NoSpanAtBlank(Mask(s), x);
  }

  lemma {:induction false} NoBlockBegins(pre: string, body: string, a: string)
    requires LacksPair(pre, '/', '*') && LacksPair(body, '/', '*')
    requires var n := |pre| + |body| + 2;
             n <= |a| && a[..n] == pre + ("--" + body) && (n < |a| ==> a[n] != '*')
    ensures forall x :: 0 <= x < |pre| + |body| + 2 ==> MatchEnd(Block, a, x).None?
  {
    var n := |pre| + |body| + 2;
    forall x | 0 <= x < n
      ensures MatchEnd(Block, a, x).None?
    {
      assert forall y :: 0 <= y < n ==> a[y] == (pre + ("--" + body))[y];
      assert !PairAt(pre, x, '/', '*');
      assert x >= |pre| + 2 ==> !PairAt(body, x - |pre| - 2, '/', '*');
      NothingBegins(Block, a, x);
    }
  }
}
