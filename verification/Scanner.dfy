/**
 * The five regular expressions of the migration scanner, each as the end offset
 * of the match that begins at a given offset, and the leftmost, non-overlapping
 * traversal that `replace` and `matchAll` perform with the `g` flag.
 */
module Scanner {
  import opened Text

  datatype Pattern =
    | Dollar    // $tag$ ... $tag$ and $$ ... $$
    | Block     // /* ... */
    | Line      // -- ...
    | Quote     // '...' with '' inside
    | Control   // BEGIN; COMMIT; ROLLBACK; START TRANSACTION; END TRANSACTION;

  // ----- the four masking patterns

  /** End of an optional dollar-quote tag that starts at `i`. */
  function TagEnd(s: string, i: nat): (k: nat)
    requires i <= |s|
    ensures i <= k <= |s|
  {
    if i < |s| && IsIdentStart(s[i]) then WordEnd(s, i + 1) else i
  }

  /** `$tag$` at `k`. */
  predicate TagCloserAt(s: string, k: nat, tag: string) {
    && k + 1 + |tag| < |s| && s[k] == '$' && s[k + 1 + |tag|] == '$'
    && forall x :: 0 <= x < |tag| ==> s[k + 1 + x] == tag[x]
  }

  /** `$$` at `k`. */
  predicate BareCloserAt(s: string, k: nat) {
    k + 1 < |s| && s[k] == '$' && s[k + 1] == '$'
  }

  /** The first closer at or after `k`: the same tag, or, because the back reference is optional, a bare `$$`. */
  function DollarClose(s: string, k: nat, tag: string): (r: Option<nat>)
    requires k <= |s|
    ensures r.Some? ==> k < r.value <= |s|
    decreases |s| - k
  {
    if k == |s| then None
    else if TagCloserAt(s, k, tag) then Some(k + |tag| + 2)
    else if BareCloserAt(s, k) then Some(k + 2)
    else DollarClose(s, k + 1, tag)
  }

  function DollarEnd(s: string, i: nat): (r: Option<nat>)
    requires i < |s|
    ensures r.Some? ==> i < r.value <= |s|
  {
    if s[i] != '$' then None else
      var q := TagEnd(s, i + 1);
      if q < |s| && s[q] == '$' then DollarClose(s, q + 1, s[i + 1..q]) else None
  }

  /** End of the first `*` `/` pair at or after `k`. */
  function BlockClose(s: string, k: nat): (r: Option<nat>)
    requires k <= |s|
    ensures r.Some? ==> k < r.value <= |s|
    decreases |s| - k
  {
    if k + 1 >= |s| then None
    else if s[k] == '*' && s[k + 1] == '/' then Some(k + 2)
    else BlockClose(s, k + 1)
  }

  function BlockEnd(s: string, i: nat): (r: Option<nat>)
    requires i < |s|
    ensures r.Some? ==> i < r.value <= |s|
  {
    if i + 1 < |s| && s[i] == '/' && s[i + 1] == '*' then BlockClose(s, i + 2) else None
  }

  function LineClose(s: string, k: nat): (r: nat)
    requires k <= |s|
    ensures k <= r <= |s|
    decreases |s| - k
  {
    if k < |s| && s[k] != '\n' then LineClose(s, k + 1) else k
  }

  function LineEnd(s: string, i: nat): (r: Option<nat>)
    requires i < |s|
    ensures r.Some? ==> i < r.value <= |s|
  {
    if i + 1 < |s| && s[i] == '-' && s[i + 1] == '-' then Some(LineClose(s, i + 2)) else None
  }

  /**
   * The closing quote. A doubled quote is consumed greedily; when the text runs
   * out, the match backs up to the first half of the last doubled quote (`last`).
   */
  function QuoteClose(s: string, j: nat, last: Option<nat>): (r: Option<nat>)
    requires j <= |s|
    requires last.Some? ==> last.value < j
    ensures r.Some? ==> r.value <= |s|
    ensures r.Some? ==> r.value > j || r == last
    decreases |s| - j
  {
    if j == |s| then last
    else if s[j] != '\'' then QuoteClose(s, j + 1, last)
    else if j + 1 < |s| && s[j + 1] == '\'' then
      var r := QuoteClose(s, j + 2, Some(j + 1));
      r
    else Some(j + 1)
  }

  function QuoteEnd(s: string, i: nat): (r: Option<nat>)
    requires i < |s|
    ensures r.Some? ==> i < r.value <= |s|
  {
    if s[i] == '\'' then QuoteClose(s, i + 1, None) else None
  }

  // ----- transaction control

  datatype Keyword = Begin | Commit | Rollback | StartTransaction | EndTransaction

  /** The first word of the phrase. */
  function Head(k: Keyword): (w: string)
    ensures |w| > 0 && forall x :: 0 <= x < |w| ==> 'A' <= w[x] <= 'Z'
  {
    match k
    case Begin => "BEGIN"
    case Commit => "COMMIT"
    case Rollback => "ROLLBACK"
    case StartTransaction => "START"
    case EndTransaction => "END"
  }

  /** `w` (upper case) occurs at `i`, compared without case. */
  predicate HasWord(s: string, i: nat, w: string) {
    i + |w| <= |s| && forall y :: i <= y < i + |w| ==> Upper(s[y]) == w[y - i]
  }

  /** `\s+TRANSACTION` at `j`. */
  function TransactionWord(s: string, j: nat): (r: Option<nat>)
    requires j <= |s|
    ensures r.Some? ==> j < r.value <= |s|
  {
    var k := SkipSpace(s, j);
    if k > j && HasWord(s, k, "TRANSACTION") then Some(k + |"TRANSACTION"|) else None
  }

  /** End of the phrase of keyword `k` at `i`. */
  function KeywordEnd(k: Keyword, s: string, i: nat): (r: Option<nat>)
    requires i <= |s|
    ensures r.Some? ==> i < r.value <= |s|
  {
    if !HasWord(s, i, Head(k)) then None
    else if k.StartTransaction? || k.EndTransaction? then TransactionWord(s, i + |Head(k)|)
    else Some(i + |Head(k)|)
  }

  /** The first alternative that matches at `i`. */
  function PhraseAt(s: string, i: nat): (r: Option<Keyword>)
    requires i <= |s|
    ensures r.Some? ==> KeywordEnd(r.value, s, i).Some?
  {
    if KeywordEnd(Begin, s, i).Some? then Some(Begin)
    else if KeywordEnd(Commit, s, i).Some? then Some(Commit)
    else if KeywordEnd(Rollback, s, i).Some? then Some(Rollback)
    else if KeywordEnd(StartTransaction, s, i).Some? then Some(StartTransaction)
    else if KeywordEnd(EndTransaction, s, i).Some? then Some(EndTransaction)
    else None
  }

  lemma {:induction false} SomePhrase(s: string, i: nat, k: Keyword)
    requires i <= |s| && KeywordEnd(k, s, i).Some?
    ensures PhraseAt(s, i).Some?
  {
    match k
    case Begin =>
    case Commit =>
    case Rollback =>
    case StartTransaction =>
    case EndTransaction =>
  }

  function ControlEnd(s: string, i: nat): (r: Option<nat>)
    requires i < |s|
    ensures r.Some? ==> i < r.value <= |s| && s[r.value - 1] == ';'
  {
    if i > 0 && IsWord(s[i - 1]) then None else
      var k := PhraseAt(s, i);
      if k.None? then None else
        var q := SkipSpace(s, KeywordEnd(k.value, s, i).value);
        if q < |s| && s[q] == ';' then Some(q + 1) else None
  }

  function MatchEnd(p: Pattern, s: string, i: nat): (r: Option<nat>)
    requires i < |s|
    ensures r.Some? ==> i < r.value <= |s|
  {
    match p
    case Dollar => DollarEnd(s, i)
    case Block => BlockEnd(s, i)
    case Line => LineEnd(s, i)
    case Quote => QuoteEnd(s, i)
    case Control => ControlEnd(s, i)
  }

  // ----- the traversal

  /** Whether character `j` lies inside a match of the traversal that starts at offset `i`. */
  predicate Marked(p: Pattern, s: string, i: nat, j: nat)
    requires i <= |s| && j < |s|
    decreases |s| - i
  {
    if j < i then false else
      match MatchEnd(p, s, i)
      case Some(e) => j < e || Marked(p, s, e, j)
      case None => Marked(p, s, i + 1, j)
  }

  /** The characters that lie inside a match. */
  function Marks(p: Pattern, s: string): (m: seq<bool>)
    ensures |m| == |s|
  {
    seq(|s|, j requires 0 <= j < |s| => Marked(p, s, 0, j))
  }

  /** Offset `i` is one the traversal stops at: what it still marks from there is what it marks at all. */
  ghost predicate Visited(p: Pattern, s: string, i: nat) {
    i <= |s| && forall j :: i <= j < |s| ==> Marked(p, s, i, j) == Marks(p, s)[j]
  }

  // ----- facts about the traversal

  lemma {:induction false} VisitedStep(p: Pattern, s: string, i: nat)
    requires Visited(p, s, i) && i < |s|
    ensures var m := MatchEnd(p, s, i);
            if m.Some? then Visited(p, s, m.value) && forall j :: i <= j < m.value ==> Marks(p, s)[j]
            else Visited(p, s, i + 1) && !Marks(p, s)[i]
  {
    assert Marks(p, s)[i] == Marked(p, s, i, i);
    if MatchEnd(p, s, i).None? {
      assert !Marked(p, s, i + 1, i);
    }
  }

  /** A character outside every match was tried as a match start, and failed. */
  lemma {:induction false} UnmarkedMeansNoMatch(p: Pattern, s: string, i: nat, j: nat)
    requires i <= j < |s| && !Marked(p, s, i, j)
    ensures MatchEnd(p, s, j).None?
    decreases |s| - i
  {
    if i < j {
      match MatchEnd(p, s, i)
      case Some(e) => UnmarkedMeansNoMatch(p, s, e, j);
      case None => UnmarkedMeansNoMatch(p, s, i + 1, j);
    }
  }

  /** A marked character lies in a match all of whose characters are marked. */
  lemma {:induction false} SpanAround(p: Pattern, s: string, i: nat, j: nat) returns (a: nat, e: nat)
    requires i <= |s| && j < |s| && Marked(p, s, i, j)
    ensures i <= a <= j < e <= |s| && MatchEnd(p, s, a) == Some(e)
    ensures forall x :: a <= x < e ==> Marked(p, s, i, x)
    decreases |s| - i
  {
    match MatchEnd(p, s, i)
    case Some(end) =>
      if j < end {
        a, e := i, end;
      } else {
        a, e := SpanAround(p, s, end, j);
      }
    case None =>
      a, e := SpanAround(p, s, i + 1, j);
  }

  /** A marked character whose left neighbour is unmarked begins a match. */
  lemma {:induction false} LeftEdge(p: Pattern, s: string, j: nat) returns (e: nat)
    requires j < |s| && Marks(p, s)[j] && (j == 0 || !Marks(p, s)[j - 1])
    ensures MatchEnd(p, s, j) == Some(e)
    ensures forall x :: j <= x < e ==> Marks(p, s)[x]
  {
    var a, end := SpanAround(p, s, 0, j);
    e := end;
  }

  /** A marked character whose right neighbour is unmarked ends a match. */
  lemma {:induction false} RightEdge(p: Pattern, s: string, j: nat) returns (a: nat)
    requires j < |s| && Marks(p, s)[j] && (j + 1 == |s| || !Marks(p, s)[j + 1])
    ensures a <= j && MatchEnd(p, s, a) == Some(j + 1)
  {
    var st, end := SpanAround(p, s, 0, j);
    a := st;
  }

  /** Without any match the traversal marks nothing. */
  lemma {:induction false} NoMatchNoMarks(p: Pattern, s: string, j: nat)
    requires j < |s|
    requires forall i :: 0 <= i < |s| ==> MatchEnd(p, s, i).None?
    ensures !Marks(p, s)[j]
  {
    if Marks(p, s)[j] {
      var a, e := SpanAround(p, s, 0, j);
    }
  }
}
