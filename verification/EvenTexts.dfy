/**
 * Texts that differ at most in which blank stands where are scanned alike by every
 * pattern except the line comment, the only one that asks which blank it is.
 */
module EvenTexts {
  import opened Text
  import opened Scanner
  import opened Masking
  import opened Stripper

  predicate IsBlank(c: char) {
    c == '\n' || c == '\r' || c == ' '
  }

  predicate EvenChar(c: char, d: char) {
    c == d || (IsBlank(c) && IsBlank(d))
  }

  ghost predicate Even(u: string, v: string) {
    |u| == |v| && forall k :: 0 <= k < |u| ==> EvenChar(u[k], v[k])
  }

  lemma {:induction false} EvenSlices(u: string, v: string, a: nat, b: nat)
    requires Even(u, v) && a <= b <= |u|
    ensures |v| == |u| && Even(u[a..b], v[a..b])
    ensures (forall x :: a <= x < b ==> !IsBlank(u[x])) ==> u[a..b] == v[a..b]
  {
  }

  // ----- the scanners

  lemma {:induction false} SkipSpaceEven(u: string, v: string, i: nat)
    requires Even(u, v) && i <= |u|
    ensures SkipSpace(v, i) == SkipSpace(u, i)
    decreases |u| - i
  {
    if i < |u| && IsSpace(u[i]) {
      SkipSpaceEven(u, v, i + 1);
    }
  }

  lemma {:induction false} WordEndEven(u: string, v: string, i: nat)
    requires Even(u, v) && i <= |u|
    ensures WordEnd(v, i) == WordEnd(u, i)
    decreases |u| - i
  {
    if i < |u| && IsWord(u[i]) {
      WordEndEven(u, v, i + 1);
    }
  }

  lemma {:induction false} DollarCloseEven(u: string, v: string, k: nat, tag: string)
    requires Even(u, v) && k <= |u| && forall x :: 0 <= x < |tag| ==> IsWord(tag[x])
    ensures DollarClose(v, k, tag) == DollarClose(u, k, tag)
    decreases |u| - k
  {
    if k < |u| {
      assert TagCloserAt(v, k, tag) <==> TagCloserAt(u, k, tag);
      DollarCloseEven(u, v, k + 1, tag);
    }
  }

  lemma {:induction false} DollarEven(u: string, v: string, i: nat)
    requires Even(u, v) && i < |u|
    ensures DollarEnd(v, i) == DollarEnd(u, i)
  {
    hide DollarClose, Even;
    EvenAt(u, v, i);
    if u[i] == '$' {
      var q := TagEnd(u, i + 1);
      TagEndEven(u, v, i + 1);
      EvenSlices(u, v, i + 1, q);
      if q < |u| {
        EvenAt(u, v, q);
        DollarCloseEven(u, v, q + 1, u[i + 1..q]);
      }
    }
  }

  lemma {:induction false} EvenAt(u: string, v: string, i: nat)
    requires Even(u, v) && i < |u|
    ensures |v| == |u| && EvenChar(u[i], v[i])
  {
  }

  lemma {:induction false} TagEndEven(u: string, v: string, i: nat)
    requires Even(u, v) && i <= |u|
    ensures TagEnd(v, i) == TagEnd(u, i)
    ensures forall x :: i <= x < TagEnd(u, i) ==> IsWord(u[x])
  {
    if i < |u| {
      WordEndEven(u, v, i + 1);
    }
  }

  lemma {:induction false} BlockCloseEven(u: string, v: string, k: nat)
    requires Even(u, v) && k <= |u|
    ensures BlockClose(v, k) == BlockClose(u, k)
    decreases |u| - k
  {
    if k + 1 < |u| {
      BlockCloseEven(u, v, k + 1);
    }
  }

  lemma {:induction false} QuoteCloseEven(u: string, v: string, j: nat, last: Option<nat>)
    requires Even(u, v) && j <= |u| && (last.Some? ==> last.value < j)
    ensures QuoteClose(v, j, last) == QuoteClose(u, j, last)
    decreases |u| - j
  {
    if j < |u| {
      if u[j] != '\'' {
        QuoteCloseEven(u, v, j + 1, last);
      } else if j + 1 < |u| && u[j + 1] == '\'' {
        QuoteCloseEven(u, v, j + 2, Some(j + 1));
      }
    }
  }

  lemma {:induction false} HasWordEven(u: string, v: string, i: nat, w: string)
    requires Even(u, v) && forall x :: 0 <= x < |w| ==> 'A' <= w[x] <= 'Z'
    ensures HasWord(v, i, w) <==> HasWord(u, i, w)
  {
    if i + |w| <= |u| {
      forall y | i <= y < i + |w|
        ensures Upper(v[y]) == w[y - i] <==> Upper(u[y]) == w[y - i]
      {
        assert 'A' <= w[y - i] <= 'Z';
      }
    }
  }

  lemma {:induction false} KeywordEven(k: Keyword, u: string, v: string, i: nat)
    requires Even(u, v) && i <= |u|
    ensures KeywordEnd(k, v, i) == KeywordEnd(k, u, i)
  {
    hide HasWord, Even;
    EvenSlices(u, v, 0, 0);
    HasWordEven(u, v, i, Head(k));
    if HasWord(u, i, Head(k)) && i + |Head(k)| <= |u| {
      SkipSpaceEven(u, v, i + |Head(k)|);
      HasWordEven(u, v, SkipSpace(u, i + |Head(k)|), "TRANSACTION");
    }
  }

  lemma {:induction false} PhraseEven(u: string, v: string, i: nat)
    requires Even(u, v) && i <= |u|
    ensures PhraseAt(v, i) == PhraseAt(u, i)
  {
    hide KeywordEnd;
    forall k: Keyword
      ensures KeywordEnd(k, v, i) == KeywordEnd(k, u, i)
    {
      KeywordEven(k, u, v, i);
    }
  }

  lemma {:induction false} ControlEven(u: string, v: string, i: nat)
    requires Even(u, v) && i < |u|
    ensures ControlEnd(v, i) == ControlEnd(u, i)
  {
    hide KeywordEnd, PhraseAt;
    PhraseEven(u, v, i);
    var k := PhraseAt(u, i);
    if k.Some? {
      KeywordEven(k.value, u, v, i);
      SkipSpaceEven(u, v, KeywordEnd(k.value, u, i).value);
    }
  }

  lemma {:induction false} MatchEven(p: Pattern, u: string, v: string, i: nat)
    requires p != Line && Even(u, v) && i < |u|
    ensures MatchEnd(p, v, i) == MatchEnd(p, u, i)
  {
    match p
    case Dollar => DollarEven(u, v, i);
    case Block => if i + 1 < |u| { BlockCloseEven(u, v, i + 2); }
    case Quote => QuoteCloseEven(u, v, i + 1, None);
    case Control => ControlEven(u, v, i);
    case Line =>
  }

  lemma {:induction false} MarkedEven(p: Pattern, u: string, v: string, i: nat, j: nat)
    requires p != Line && Even(u, v) && i <= |u| && j < |u|
    ensures Marked(p, v, i, j) == Marked(p, u, i, j)
    decreases |u| - i
  {
    hide MatchEnd;
    if i <= j {
      MatchEven(p, u, v, i);
      match MatchEnd(p, u, i)
      case Some(e) => MarkedEven(p, u, v, e, j);
      case None => MarkedEven(p, u, v, i + 1, j);
    }
  }

  lemma {:induction false} MarksEven(p: Pattern, u: string, v: string)
    requires p != Line && Even(u, v)
    ensures Marks(p, v) == Marks(p, u)
  {
    forall j | 0 <= j < |u|
      ensures Marks(p, v)[j] == Marks(p, u)[j]
    {
      MarkedEven(p, u, v, 0, j);
    }
  }

  /** Blanking the same characters keeps texts even. */
  lemma {:induction false} BlankEven(u: string, v: string, c: seq<bool>)
    requires Even(u, v) && |c| == |u|
    ensures Even(BlankAt(u, c), BlankAt(v, c))
  {
  }

  lemma {:induction false} PassEven(p: Pattern, u: string, v: string)
    requires p != Line && Even(u, v)
    ensures Even(Pass(p, u), Pass(p, v))
  {
    MarksEven(p, u, v);
    BlankEven(u, v, Marks(p, u));
  }

  // ----- what follows for reports and for the marker

  lemma {:induction false} CollapseEven(u: string, v: string, after: bool)
    requires Even(u, v)
    ensures Collapse(v, after) == Collapse(u, after)
    decreases |u|
  {
    if u != [] {
      assert Even(u[1..], v[1..]);
      CollapseEven(u[1..], v[1..], IsSpace(u[0]));
    }
  }

  lemma {:induction false} ReportedEven(u: string, v: string)
    requires Even(u, v)
    ensures Reported(v) == Reported(u)
  {
    hide Trim, Collapse;
    CollapseEven(u, v, false);
  }

  /** Even texts include the same words without blanks. */
  lemma {:induction false} IncludesEven(u: string, v: string, w: string)
    requires Even(u, v) && forall x :: 0 <= x < |w| ==> !IsBlank(w[x])
    ensures Includes(v, w) <==> Includes(u, w)
  {
    forall k: nat | k <= |u|
      ensures HasAt(v, k, w) <==> HasAt(u, k, w)
    {
      if k + |w| <= |u| {
        WordEven(u, v, k, w);
        WordEven(v, u, k, w);
      }
    }
  }

  lemma {:induction false} WordEven(u: string, v: string, k: nat, w: string)
    requires Even(u, v) && k + |w| <= |u| && forall x :: 0 <= x < |w| ==> !IsBlank(w[x])
    ensures HasAt(u, k, w) ==> HasAt(v, k, w)
  {
    if HasAt(u, k, w) {
      forall x | k <= x < k + |w|
        ensures v[x] == u[x]
      {
        assert u[x] == u[k..k + |w|][x - k] == w[x - k];
      }
      assert v[k..k + |w|] == u[k..k + |w|];
    }
  }
}
