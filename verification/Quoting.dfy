/**
 * What each of the four masking patterns matches, on any text: the delimiters, and the first
 * or the last place where the match can end.
 */
module Quoting {
  import opened Text
  import opened Scanner
  import opened Lexical

  /** A closer of a quote with this tag stands at `k`: the tag again, or a bare one. */
  ghost predicate ClosesAt(s: string, k: nat, tag: string) {
    HasAt(s, k, "$" + tag + "$") || HasAt(s, k, "$$")
  }

  /** The closer with the tag is taken where both would do. */
  ghost predicate EndsDollar(s: string, k: nat, tag: string, e: nat) {
    e == if HasAt(s, k, "$" + tag + "$") then k + |tag| + 2 else k + 2
  }

  ghost predicate DollarFrom(s: string, i: nat, tag: string, k: nat, e: nat) {
    && IsTag(tag) && HasAt(s, i, "$" + tag + "$") && i + |tag| + 2 <= k && ClosesAt(s, k, tag)
    && (forall x :: i + |tag| + 2 <= x < k ==> !ClosesAt(s, x, tag)) && EndsDollar(s, k, tag, e)
  }

  /** A string between quotes from `i` to `e`, in which quotes come in pairs. */
  ghost predicate LiteralFrom(s: string, i: nat, e: nat) {
    i + 2 <= e <= |s| && s[i] == '\'' && s[e - 1] == '\'' && Paired(s[i + 1..e - 1])
  }

  // ----- dollar quotes

  lemma {:induction false} TagAt(s: string, k: nat, tag: string)
    requires k <= |s|
    ensures HasAt(s, k, "$" + tag + "$") <==> TagCloserAt(s, k, tag)
  {
    var w := "$" + tag + "$";
    if HasAt(s, k, w) {
      assert s[k..k + |w|] == w;
      assert forall x :: 0 <= x < |w| ==> s[k + x] == w[x];
      assert w[0] == '$' && w[1 + |tag|] == '$' && forall x :: 0 <= x < |tag| ==> w[1 + x] == tag[x];
    }
    if TagCloserAt(s, k, tag) {
      assert s[k..k + |w|] == w;
    }
  }

  lemma {:induction false} BareAt(s: string, k: nat)
    requires k <= |s|
    ensures HasAt(s, k, "$$") <==> BareCloserAt(s, k)
  {
    if HasAt(s, k, "$$") {
      assert s[k..k + 2] == "$$";
    }
    if BareCloserAt(s, k) {
      assert s[k..k + 2] == "$$";
    }
  }

  lemma {:induction false} FirstCloser(s: string, k: nat, tag: string, y: nat)
    requires k <= y <= |s| && ClosesAt(s, y, tag) && forall x :: k <= x < y ==> !ClosesAt(s, x, tag)
    ensures DollarClose(s, k, tag).Some? && EndsDollar(s, y, tag, DollarClose(s, k, tag).value)
    decreases y - k
  {
    hide HasAt, TagCloserAt, BareCloserAt;
    TagAt(s, k, tag);
    BareAt(s, k);
    CloserFits(s, y, tag);
    if k < y {
      assert !ClosesAt(s, k, tag);
      FirstCloser(s, k + 1, tag, y);
    }
  }

  lemma {:induction false} CloserFits(s: string, y: nat, tag: string)
    requires ClosesAt(s, y, tag)
    ensures y + 2 <= |s|
  {
  }

  lemma {:induction false} CloserFound(s: string, k: nat, tag: string) returns (y: nat)
    requires k <= |s| && DollarClose(s, k, tag).Some?
    ensures k <= y <= |s| && ClosesAt(s, y, tag) && forall x :: k <= x < y ==> !ClosesAt(s, x, tag)
    decreases |s| - k
  {
    hide HasAt, TagCloserAt, BareCloserAt;
    TagAt(s, k, tag);
    BareAt(s, k);
    if ClosesAt(s, k, tag) {
      y := k;
    } else {
      y := CloserFound(s, k + 1, tag);
    }
  }

  lemma {:induction false} TagOf(s: string, i: nat)
    requires i < |s|
    ensures var q := TagEnd(s, i + 1); IsTag(s[i + 1..q])
    ensures var q := TagEnd(s, i + 1); s[i] == '$' && q < |s| && s[q] == '$' ==> HasAt(s, i, "$" + s[i + 1..q] + "$")
  {
    var q := TagEnd(s, i + 1);
    var tag := s[i + 1..q];
    if tag != [] {
      WordEndAll(s, i + 2);
    }
    if s[i] == '$' && q < |s| && s[q] == '$' {
      assert s[i..q + 1] == "$" + tag + "$";
    }
  }

  lemma {:induction false} WordEndAll(s: string, i: nat)
    requires i <= |s|
    ensures forall x :: i <= x < WordEnd(s, i) ==> IsWord(s[x])
    decreases |s| - i
  {
    if i < |s| && IsWord(s[i]) {
      WordEndAll(s, i + 1);
    }
  }

  lemma {:induction false} DollarIff(s: string, i: nat, e: nat)
    requires i < |s|
    ensures MatchEnd(Dollar, s, i) == Some(e) <==> exists tag, k :: DollarFrom(s, i, tag, k, e)
  {
    hide HasAt, TagEnd, IsTag, DollarClose, EndsDollar, ClosesAt;
    if MatchEnd(Dollar, s, i) == Some(e) {
      TagOf(s, i);
      var q := TagEnd(s, i + 1);
      var tag := s[i + 1..q];
      var k := CloserFound(s, q + 1, tag);
      FirstCloser(s, q + 1, tag, k);
      EndUnique(s, k, tag, e, DollarClose(s, q + 1, tag).value);
      assert DollarFrom(s, i, tag, k, e);
    }
    if tag, k :| DollarFrom(s, i, tag, k, e) {
      OpensAt(s, i, tag);
      CloserFits(s, k, tag);
      FirstCloser(s, i + |tag| + 2, tag, k);
      EndUnique(s, k, tag, e, DollarClose(s, i + |tag| + 2, tag).value);
    }
  }

  lemma {:induction false} OpensAt(s: string, i: nat, tag: string)
    requires IsTag(tag) && HasAt(s, i, "$" + tag + "$")
    ensures i + |tag| + 2 <= |s| && s[i] == '$' && TagEnd(s, i + 1) == i + 1 + |tag| && s[i + 1 + |tag|] == '$'
    ensures s[i + 1..i + 1 + |tag|] == tag
  {
    hide IsTag, TagEnd, TagCloserAt;
    DollarOpens(s, i, tag);
  }

  lemma {:induction false} EndUnique(s: string, k: nat, tag: string, e: nat, e': nat)
    requires EndsDollar(s, k, tag, e')
    ensures EndsDollar(s, k, tag, e) <==> e == e'
  {
  }

  // ----- comments

  lemma {:induction false} BlockCloseIs(s: string, k: nat, e: nat)
    requires k <= |s|
    ensures BlockClose(s, k) == Some(e) <==>
      k + 2 <= e <= |s| && s[e - 2] == '*' && s[e - 1] == '/'
      && forall x :: k <= x < e - 2 ==> !(s[x] == '*' && s[x + 1] == '/')
    decreases |s| - k
  {
    if k + 1 < |s| && !(s[k] == '*' && s[k + 1] == '/') {
      BlockCloseIs(s, k + 1, e);
    }
  }

  /** A block comment ends at the first closer behind its opener; without one there is no comment. */
  lemma {:induction false} BlockIff(s: string, i: nat, e: nat)
    requires i < |s|
    ensures MatchEnd(Block, s, i) == Some(e) <==>
      && i + 4 <= e <= |s| && s[i] == '/' && s[i + 1] == '*' && s[e - 2] == '*' && s[e - 1] == '/'
      && forall x :: i + 2 <= x < e - 2 ==> !(s[x] == '*' && s[x + 1] == '/')
  {
    if i + 1 < |s| {
      BlockCloseIs(s, i + 2, e);
    }
  }

  lemma {:induction false} LineCloseIs(s: string, k: nat, e: nat)
    requires k <= |s|
    ensures LineClose(s, k) == e <==>
      k <= e <= |s| && (e < |s| ==> s[e] == '\n') && forall x :: k <= x < e ==> s[x] != '\n'
    decreases |s| - k
  {
    if k < |s| && s[k] != '\n' {
      LineCloseIs(s, k + 1, e);
    }
  }

  /** A line comment runs to the line feed, or to the end of the text. */
  lemma {:induction false} LineIff(s: string, i: nat, e: nat)
    requires i < |s|
    ensures MatchEnd(Line, s, i) == Some(e) <==>
      && i + 2 <= e <= |s| && s[i] == '-' && s[i + 1] == '-' && (e < |s| ==> s[e] == '\n')
      && forall x :: i + 2 <= x < e ==> s[x] != '\n'
  {
    if i + 1 < |s| {
      LineCloseIs(s, i + 2, e);
    }
  }

  // ----- literals

  lemma {:induction false} PairedThen(s: string, a: nat, j: nat, b: nat)
    requires a <= j <= b <= |s| && Paired(s[a..j])
    ensures Paired(s[a..b]) <==> Paired(s[j..b])
    decreases j - a
  {
    if a < j {
      var n := if s[a] == '\'' then 2 else 1;
      assert s[a..j][0] == s[a] && s[a..j][n..] == s[a + n..j];
      assert s[a..b][0] == s[a] && s[a..b][n..] == s[a + n..b];
      if n == 2 {
        assert s[a..j][1] == s[a + 1] == s[a..b][1];
      }
      PairedThen(s, a + n, j, b);
    }
  }

  /** The match ends at the last quote up to which all others come in pairs. */
  ghost predicate LastOf(s: string, a: nat, r: Option<nat>) {
    && (r.Some? ==> LiteralFrom(s, a, r.value))
    && forall e: nat :: LiteralFrom(s, a, e) ==> r.Some? && e <= r.value
  }

  lemma {:induction false} QuoteCloseIs(s: string, a: nat, j: nat, last: Option<nat>)
    requires a + 1 <= j <= |s| && s[a] == '\'' && Paired(s[a + 1..j])
    requires last.Some? ==> last.value <= j - 1 && LiteralFrom(s, a, last.value)
    requires forall e: nat :: e <= j && LiteralFrom(s, a, e) ==> last.Some? && e <= last.value
    ensures LastOf(s, a, QuoteClose(s, j, last))
    decreases |s| - j
  {
    hide LiteralFrom, Paired;
    LiteralsEnd(s, a);
    if j < |s| {
      if s[j] != '\'' {
        PlainGoesOn(s, a, j);
        QuoteCloseIs(s, a, j + 1, last);
      } else if j + 1 < |s| && s[j + 1] == '\'' {
        PairGoesOn(s, a, j);
        QuoteCloseIs(s, a, j + 2, Some(j + 1));
      } else {
        LoneEnds(s, a, j);
      }
    }
  }

  lemma {:induction false} LiteralsEnd(s: string, a: nat)
    ensures forall e: nat :: LiteralFrom(s, a, e) ==> e <= |s|
  {
  }

  lemma {:induction false} PlainGoesOn(s: string, a: nat, j: nat)
    requires a + 1 <= j < |s| && s[j] != '\'' && Paired(s[a + 1..j])
    ensures Paired(s[a + 1..j + 1]) && !LiteralFrom(s, a, j + 1)
  {
    assert s[j..j + 1] == [s[j]] && s[j..j + 1][1..] == [];
    PairedThen(s, a + 1, j, j + 1);
  }

  lemma {:induction false} PairGoesOn(s: string, a: nat, j: nat)
    requires a + 1 <= j && j + 1 < |s| && s[a] == '\'' && s[j] == '\'' && s[j + 1] == '\'' && Paired(s[a + 1..j])
    ensures Paired(s[a + 1..j + 2]) && LiteralFrom(s, a, j + 1) && !LiteralFrom(s, a, j + 2)
  {
    assert s[j..j + 2] == [s[j], s[j + 1]] && s[j..j + 2][2..] == [];
    assert s[j..j + 1] == [s[j]];
    PairedThen(s, a + 1, j, j + 2);
    PairedThen(s, a + 1, j, j + 1);
  }

  lemma {:induction false} LoneEnds(s: string, a: nat, j: nat)
    requires a + 1 <= j < |s| && s[a] == '\'' && s[j] == '\'' && Paired(s[a + 1..j])
    requires j + 1 < |s| ==> s[j + 1] != '\''
    ensures LastOf(s, a, Some(j + 1))
  {
    forall e: nat | j + 1 < e <= |s|
      ensures !LiteralFrom(s, a, e)
    {
      PairedThen(s, a + 1, j, e - 1);
      assert s[j..e - 1][0] == s[j];
      assert j + 2 < e ==> s[j..e - 1][1] == s[j + 1];
    }
  }

  /** A literal is the longest string between quotes in which quotes come in pairs. */
  lemma {:induction false} QuoteIff(s: string, i: nat, e: nat)
    requires i < |s|
    ensures MatchEnd(Quote, s, i) == Some(e) <==>
      LiteralFrom(s, i, e) && forall x: nat :: e < x ==> !LiteralFrom(s, i, x)
  {
    if s[i] == '\'' {
      QuoteCloseIs(s, i, i + 1, None);
      var r := QuoteClose(s, i + 1, None);
      if r.Some? {
        assert LiteralFrom(s, i, r.value);
      }
    }
  }
}
