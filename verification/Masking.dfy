/** The four-pass masking of comments, dollar-quoted bodies and string literals. */
module Masking {
  import opened Text
  import opened Scanner

  /** One `replace(pattern, blank)` over the whole text. */
  function Pass(p: Pattern, s: string): (t: string)
    ensures |t| == |s|
  {
    BlankAt(s, Marks(p, s))
  }

  function Mask(s: string): (t: string)
    ensures |t| == |s|
  {
    Pass(Quote, Pass(Line, Pass(Block, Pass(Dollar, s))))
  }

  // ----- a match of a masking pattern survives un-blanking

  lemma {:induction false} WordEndUnique(s: string, i: nat, k: nat)
    requires i <= k < |s|
    requires forall x :: i <= x < k ==> IsWord(s[x])
    requires !IsWord(s[k])
    ensures WordEnd(s, i) == k
    decreases k - i
  {
    if i < k {
      WordEndUnique(s, i + 1, k);
    }
  }

  lemma {:induction false} DollarCloseMonotone(s: string, t: string, k: nat, tag: string)
    requires Blanking(s, t) && k <= |s|
    requires forall x :: 0 <= x < |tag| ==> IsWord(tag[x])
    requires DollarClose(t, k, tag).Some?
    ensures DollarClose(s, k, tag).Some?
    decreases |s| - k
  {
    if TagCloserAt(t, k, tag) {
      assert forall x :: 0 <= x < |tag| ==> t[k + 1 + x] == tag[x] && s[k + 1 + x] == tag[x];
    } else if BareCloserAt(t, k) {
    } else {
      DollarCloseMonotone(s, t, k + 1, tag);
    }
  }

  lemma {:induction false} DollarTag(t: string, i: nat)
    requires i < |t| && DollarEnd(t, i).Some?
    ensures forall x :: i < x < TagEnd(t, i + 1) ==> IsWord(t[x])
  {
  }

  lemma {:induction false} DollarMonotone(s: string, t: string, i: nat)
    requires Blanking(s, t) && i < |s| && DollarEnd(t, i).Some?
    ensures DollarEnd(s, i).Some?
  {
    var q := TagEnd(t, i + 1);
    DollarTag(t, i);
    assert t[q] == '$' && s[q] == '$';
    assert forall x :: i <= x <= q ==> s[x] == t[x];
    if i + 1 < q {
      WordEndUnique(s, i + 2, q);
    }
    assert TagEnd(s, i + 1) == q;
    assert s[i + 1..q] == t[i + 1..q];
    DollarCloseMonotone(s, t, q + 1, s[i + 1..q]);
  }

  lemma {:induction false} BlockCloseMonotone(s: string, t: string, k: nat)
    requires Blanking(s, t) && k <= |s| && BlockClose(t, k).Some?
    ensures BlockClose(s, k).Some?
    decreases |s| - k
  {
    if t[k] == '*' && t[k + 1] == '/' {
    } else {
      BlockCloseMonotone(s, t, k + 1);
    }
  }

  /** A quoted literal closes exactly when some quote follows. */
  lemma {:induction false} QuoteCloseIff(s: string, j: nat, last: Option<nat>)
    requires j <= |s| && (last.Some? ==> last.value < j)
    ensures QuoteClose(s, j, last).Some? <==> last.Some? || exists x :: j <= x < |s| && s[x] == '\''
    decreases |s| - j
  {
    if j == |s| {
    } else if s[j] != '\'' {
      QuoteCloseIff(s, j + 1, last);
    } else if j + 1 < |s| && s[j + 1] == '\'' {
      QuoteCloseIff(s, j + 2, Some(j + 1));
    }
  }

  /** If a masking pattern matches at `i` in the blanked text, it matches at `i` in the original. */
  lemma {:induction false} Monotone(p: Pattern, s: string, t: string, i: nat)
    requires p != Control && Blanking(s, t) && i < |s| && MatchEnd(p, t, i).Some?
    ensures MatchEnd(p, s, i).Some?
  {
    match p
    case Dollar => DollarMonotone(s, t, i);
    case Block => BlockCloseMonotone(s, t, i + 2);
    case Line =>
    case Quote =>
      QuoteCloseIff(t, i + 1, None);
      QuoteCloseIff(s, i + 1, None);
  }

  /** What a masking pattern matches begins with a character that blanking removes. */
  lemma {:induction false} MatchBeginsSolid(p: Pattern, s: string, i: nat)
    requires p != Control && i < |s| && MatchEnd(p, s, i).Some?
    ensures s[i] in "$/-'"
  {
  }

  // ----- one pass, and then all four, leave nothing to match

  lemma {:induction false} PassLeavesNoMatch(p: Pattern, s: string, i: nat)
    requires p != Control && i < |s|
    ensures MatchEnd(p, Pass(p, s), i).None?
  {
    var t := Pass(p, s);
    BlankAtIsBlanking(s, Marks(p, s));
    if MatchEnd(p, t, i).Some? {
      Monotone(p, s, t, i);
      MatchBeginsSolid(p, t, i);
      if !Marks(p, s)[i] {
        UnmarkedMeansNoMatch(p, s, 0, i);
      }
    }
  }

  lemma {:induction false} PassIsBlanking(p: Pattern, s: string)
    ensures Blanking(s, Pass(p, s))
  {
    BlankAtIsBlanking(s, Marks(p, s));
  }

  lemma {:induction false} MaskIsBlanking(s: string)
    ensures Blanking(s, Mask(s))
  {
    var a := Pass(Dollar, s);
    var b := Pass(Block, a);
    var c := Pass(Line, b);
    PassIsBlanking(Dollar, s);
    PassIsBlanking(Block, a);
    PassIsBlanking(Line, b);
    PassIsBlanking(Quote, c);
    BlankingTransitive(s, a, b);
    BlankingTransitive(s, b, c);
    BlankingTransitive(s, c, Pass(Quote, c));
  }

  /** Text with no masking match left stays matchless under further blanking. */
  lemma {:induction false} StaysMatchless(p: Pattern, s: string, t: string, i: nat)
    requires p != Control && Blanking(s, t) && i < |s|
    requires MatchEnd(p, s, i).None?
    ensures MatchEnd(p, t, i).None?
  {
    if MatchEnd(p, t, i).Some? {
      Monotone(p, s, t, i);
    }
  }

  /** After masking no comment, no dollar quote and no literal is left, in any of the four senses at once. */
  lemma {:induction false} MaskLeavesNothing(p: Pattern, s: string, i: nat)
    requires p != Control && i < |s|
    ensures MatchEnd(p, Mask(s), i).None?
  {
    var a := Pass(Dollar, s);
    var b := Pass(Block, a);
    var c := Pass(Line, b);
    var m := Pass(Quote, c);
    PassIsBlanking(Block, a);
    PassIsBlanking(Line, b);
    PassIsBlanking(Quote, c);
    BlankingTransitive(b, c, m);
    BlankingTransitive(a, b, m);
    match p
    case Dollar => PassLeavesNoMatch(p, s, i); StaysMatchless(p, a, m, i);
    case Block => PassLeavesNoMatch(p, a, i); StaysMatchless(p, b, m, i);
    case Line => PassLeavesNoMatch(p, b, i); StaysMatchless(p, c, m, i);
    case Quote => PassLeavesNoMatch(p, c, i);
  }

  lemma {:induction false} MatchlessPassIsIdentity(p: Pattern, s: string)
    requires forall i :: 0 <= i < |s| ==> MatchEnd(p, s, i).None?
    ensures Pass(p, s) == s
  {
    forall j | 0 <= j < |s|
      ensures !Marks(p, s)[j]
    {
      NoMatchNoMarks(p, s, j);
    }
  }

  /**
   * Masking is idempotent, keeps the length and every newline where it was, and
   * leaves each character as it was or replaces it by one space.
   */
  lemma {:induction false} MaskFaithful(s: string)
    ensures Mask(Mask(s)) == Mask(s)
    ensures |Mask(s)| == |s|
    ensures forall j :: 0 <= j < |s| ==> (Mask(s)[j] == '\n' <==> s[j] == '\n')
    ensures forall j :: 0 <= j < |s| ==> Mask(s)[j] == s[j] || Mask(s)[j] == ' '
  {
    MaskIsBlanking(s);
    var m := Mask(s);
    forall p: Pattern | p != Control
      ensures Pass(p, m) == m
    {
      forall i | 0 <= i < |m|
        ensures MatchEnd(p, m, i).None?
      {
        MaskLeavesNothing(p, s, i);
      }
      MatchlessPassIsIdentity(p, m);
    }
  }
}
