/**
 * What a single strip leaves behind: exactly when transaction control survives,
 * when it cannot, and what becomes of comments, bodies and the destructive marker.
 */
module Residue {
  import opened Text
  import opened Scanner
  import opened Masking
  import opened Stripper
  import opened StripLaws

  /** There is a finding exactly when some offset of the masked text begins a match. */
  lemma {:induction false} FindingsEmptyIff(m: string, i: nat)
    requires i <= |m|
    ensures FindingsIn(m, i) == [] <==> forall j :: i <= j < |m| ==> ControlEnd(m, j).None?
    decreases |m| - i
  {
    if i < |m| {
      match MatchEnd(Control, m, i)
      case Some(e) =>
        assert ControlEnd(m, i).Some?;
      case None =>
        assert ControlEnd(m, i).None?;
        FindingsEmptyIff(m, i + 1);
    }
  }

  // ----- the shape of a match

  lemma {:induction false} PhraseShape(s: string, i: nat, k: Keyword)
    requires i < |s| && KeywordEnd(k, s, i).Some?
    ensures IsWord(s[i])
    ensures forall y :: i <= y < KeywordEnd(k, s, i).value ==> IsWord(s[y]) || IsSpace(s[y])
  {
    WordIsWord(s, i, Head(k));
    if k.StartTransaction? || k.EndTransaction? {
      WordIsWord(s, SkipSpace(s, i + |Head(k)|), "TRANSACTION");
    }
  }

  /** Inside a match there are only word characters and white space, up to the final semicolon. */
  lemma {:induction false} ControlShape(s: string, i: nat, e: nat)
    requires i < |s| && ControlEnd(s, i) == Some(e)
    ensures forall y :: i <= y < e - 1 ==> IsWord(s[y]) || IsSpace(s[y])
    ensures IsWord(s[i]) && s[e - 1] == ';'
  {
    PhraseShape(s, i, PhraseAt(s, i).value);
  }

  // ----- exactly when one strip leaves transaction control behind

  /** Skips white space and erased matches. */
  function SoftSkip(m: string, c: seq<bool>, i: nat): (k: nat)
    requires i <= |m| == |c|
    ensures i <= k <= |m|
    decreases |m| - i
  {
    if i < |m| && (c[i] || IsSpace(m[i])) then SoftSkip(m, c, i + 1) else i
  }

  /** `w` occurs at `i`, and stripping keeps every character of it. */
  predicate KeptWord(m: string, c: seq<bool>, i: nat, w: string)
    requires |m| == |c|
  {
    i + |w| <= |m| && forall y :: i <= y < i + |w| ==> Upper(m[y]) == w[y - i] && !c[y]
  }

  /** End of the phrase of keyword `k` at `i`, looking through erased matches. */
  function ThroughKeyword(k: Keyword, m: string, c: seq<bool>, i: nat): (r: Option<nat>)
    requires i <= |m| == |c|
    ensures r.Some? ==> i < r.value <= |m|
  {
    if !KeptWord(m, c, i, Head(k)) then None
    else if k.StartTransaction? || k.EndTransaction? then
      var j := i + |Head(k)|;
      var n := SoftSkip(m, c, j);
      if n > j && KeptWord(m, c, n, "TRANSACTION") then Some(n + |"TRANSACTION"|) else None
    else Some(i + |Head(k)|)
  }

  /**
   * A keyword that stripping keeps at `i`, separated from a semicolon that it
   * also keeps by nothing but white space and matches that it erases.
   */
  predicate Bridged(m: string, c: seq<bool>, i: nat)
    requires i < |m| == |c|
  {
    && !c[i] && (i == 0 || !IsWord(m[i - 1]))
    && exists k: Keyword :: ClosesThrough(k, m, c, i)
  }

  predicate ClosesThrough(k: Keyword, m: string, c: seq<bool>, i: nat)
    requires i <= |m| == |c|
  {
    var p := ThroughKeyword(k, m, c, i);
    p.Some? &&
    var q := SoftSkip(m, c, p.value);
    q < |m| && m[q] == ';'
  }

  lemma {:induction false} SoftSkipIsSkip(m: string, c: seq<bool>, i: nat)
    requires i <= |m| == |c|
    ensures SkipSpace(BlankAt(m, c), i) == SoftSkip(m, c, i)
    decreases |m| - i
  {
    if i < |m| && (c[i] || IsSpace(m[i])) {
      SoftSkipIsSkip(m, c, i + 1);
    }
  }

  lemma {:induction false} KeptWordIsWord(m: string, c: seq<bool>, i: nat, w: string)
    requires |m| == |c| && forall x :: 0 <= x < |w| ==> 'A' <= w[x] <= 'Z'
    ensures HasWord(BlankAt(m, c), i, w) == KeptWord(m, c, i, w)
  {
    var t := BlankAt(m, c);
    if i + |w| <= |m| {
      forall y | i <= y < i + |w|
        ensures (Upper(t[y]) == w[y - i]) == (Upper(m[y]) == w[y - i] && !c[y])
      {
        assert 'A' <= w[y - i] <= 'Z';
      }
    }
  }

  lemma {:induction false} ThroughKeywordIsKeyword(k: Keyword, m: string, c: seq<bool>, i: nat)
    requires i < |m| == |c|
    ensures KeywordEnd(k, BlankAt(m, c), i) == ThroughKeyword(k, m, c, i)
  {
    hide HasWord, Head;
    KeptWordIsWord(m, c, i, Head(k));
    if KeptWord(m, c, i, Head(k)) {
      var j := i + |Head(k)|;
      SoftSkipIsSkip(m, c, j);
      KeptWordIsWord(m, c, SoftSkip(m, c, j), "TRANSACTION");
    }
  }

  /** At most one keyword matches at an offset: no two begin with the same letter. */
  lemma {:induction false} OneKeyword(s: string, i: nat, k: Keyword, k': Keyword)
    requires i < |s| && KeywordEnd(k, s, i).Some? && KeywordEnd(k', s, i).Some?
    ensures k == k'
  {
    assert Upper(s[i]) == Head(k)[0] == Head(k')[0];
  }

  /** What the scanner matches at `i`, whichever keyword it is. */
  lemma {:induction false} ControlEndIff(s: string, i: nat)
    requires i < |s|
    ensures ControlEnd(s, i).Some? <==>
            (i == 0 || !IsWord(s[i - 1])) && exists k :: ClosesAt(k, s, i)
    ensures forall k, e ::
              (i == 0 || !IsWord(s[i - 1])) && ClosesAt(k, s, i) && e == SkipSpace(s, KeywordEnd(k, s, i).value) + 1
              ==> ControlEnd(s, i) == Some(e)
  {
    hide KeywordEnd;
    var r := PhraseAt(s, i);
    forall k | KeywordEnd(k, s, i).Some?
      ensures r == Some(k)
    {
      SomePhrase(s, i, k);
      OneKeyword(s, i, k, r.value);
    }
    if ControlEnd(s, i).Some? {
      assert ClosesAt(r.value, s, i);
    }
  }

  /** The phrase of `k` at `i`, white space, a semicolon. */
  predicate ClosesAt(k: Keyword, s: string, i: nat)
    requires i <= |s|
  {
    var p := KeywordEnd(k, s, i);
    p.Some? &&
    var q := SkipSpace(s, p.value);
    q < |s| && s[q] == ';'
  }

  lemma {:induction false} ClosesThroughIsCloses(k: Keyword, m: string, c: seq<bool>, i: nat)
    requires i < |m| == |c|
    ensures ClosesAt(k, BlankAt(m, c), i) == ClosesThrough(k, m, c, i)
  {
    ThroughKeywordIsKeyword(k, m, c, i);
    var p := ThroughKeyword(k, m, c, i);
    if p.Some? {
      SoftSkipIsSkip(m, c, p.value);
      SoftSkipStops(m, c, p.value);
    }
  }

  lemma {:induction false} SoftSkipStops(m: string, c: seq<bool>, i: nat)
    requires i <= |m| == |c|
    ensures var k := SoftSkip(m, c, i); k < |m| ==> !c[k]
    decreases |m| - i
  {
    if i < |m| && (c[i] || IsSpace(m[i])) {
      SoftSkipStops(m, c, i + 1);
    }
  }

  /** A match in the blanked text is a bridge in the masked text before blanking, and the other way round. */
  lemma {:induction false} BridgedIffMatch(m: string, c: seq<bool>, i: nat)
    requires i < |m| && SolidEdges(c, m)
    ensures ControlEnd(BlankAt(m, c), i).Some? <==> Bridged(m, c, i)
  {
    var t := BlankAt(m, c);
    if c[i] {
      if ControlEnd(t, i).Some? {
        PhraseShape(t, i, PhraseAt(t, i).value);
      }
    } else {
      assert i > 0 ==> IsWord(t[i - 1]) == IsWord(m[i - 1]) by {
        assert i > 0 && c[i - 1] ==> IsRightEdge(c, i - 1);
      }
      ControlEndIff(t, i);
      forall k: Keyword
        ensures ClosesAt(k, t, i) == ClosesThrough(k, m, c, i)
      {
        ClosesThroughIsCloses(k, m, c, i);
      }
    }
  }

  /**
   * One strip leaves transaction control behind exactly when an erased match bridged a kept keyword
   * and a kept semicolon.
   */
  lemma {:induction false} ResidueIff(sql: string)
    ensures Residual(sql) == [] <==>
            forall i :: 0 <= i < |sql| ==> !Bridged(Mask(sql), ControlMarks(sql), i)
  {
    var m, c := Mask(sql), ControlMarks(sql);
    MaskCommutesWithStrip(sql);
    ControlMarksHaveSolidEdges(m);
    FindingsEmptyIff(BlankAt(m, c), 0);
    forall i | 0 <= i < |sql|
      ensures ControlEnd(BlankAt(m, c), i).Some? <==> Bridged(m, c, i)
    {
      BridgedIffMatch(m, c, i);
    }
  }

  // ----- a premise under which nothing is left

  /** Index of the nearest character before `x` that is not white space. */
  function PrevSolid(m: string, x: nat): (r: Option<nat>)
    requires x <= |m|
    ensures r.Some? ==> r.value < x && !IsSpace(m[r.value])
    ensures forall y :: (if r.Some? then r.value + 1 else 0) <= y < x ==> IsSpace(m[y])
    decreases x
  {
    if x == 0 then None
    else if !IsSpace(m[x - 1]) then Some(x - 1)
    else PrevSolid(m, x - 1)
  }

  /** Nothing but white space stands between `x` and the previous semicolon or the start of the text. */
  predicate BeginsStatement(m: string, x: nat)
    requires x <= |m|
  {
    var p := PrevSolid(m, x);
    p.None? || m[p.value] == ';'
  }

  ghost predicate EveryMatchBeginsStatement(m: string) {
    forall x :: 0 <= x < |m| && ControlEnd(m, x).Some? ==> BeginsStatement(m, x)
  }

  lemma {:induction false} SkipSpaceAgrees(s: string, t: string, i: nat, q: nat)
    requires |s| == |t| && i <= q < |s| && q == SkipSpace(t, i)
    requires forall y :: i <= y <= q ==> s[y] == t[y]
    ensures SkipSpace(s, i) == q
    decreases q - i
  {
  }

  lemma {:induction false} WordLocal(s: string, t: string, i: nat, w: string)
    requires |s| == |t| && HasWord(t, i, w)
    requires forall y :: i <= y < i + |w| ==> s[y] == t[y]
    ensures HasWord(s, i, w)
  {
  }

  lemma {:induction false} KeywordLocal(k: Keyword, s: string, t: string, i: nat, p: nat)
    requires |s| == |t| && i < p <= |s| && KeywordEnd(k, t, i) == Some(p)
    requires forall y :: i <= y < p ==> s[y] == t[y]
    ensures KeywordEnd(k, s, i) == Some(p)
  {
    hide HasWord, Head;
    WordLocal(s, t, i, Head(k));
    if k.StartTransaction? || k.EndTransaction? {
      var j := i + |Head(k)|;
      SkipSpaceAgrees(s, t, j, SkipSpace(t, j));
      WordLocal(s, t, SkipSpace(t, j), "TRANSACTION");
    }
  }

  /** A match is decided by its own characters and the one before it. */
  lemma {:induction false} ControlLocal(s: string, t: string, i: nat, e: nat)
    requires |s| == |t| && i < e <= |s| && ControlEnd(t, i) == Some(e)
    requires i > 0 ==> !IsWord(s[i - 1])
    requires forall y :: i <= y < e ==> s[y] == t[y]
    ensures ControlEnd(s, i) == Some(e)
  {
    var k := PhraseAt(t, i).value;
    var p := KeywordEnd(k, t, i).value;
    KeywordLocal(k, s, t, i, p);
    SkipSpaceAgrees(s, t, p, e - 1);
    ControlEndIff(s, i);
    assert ClosesAt(k, s, i);
  }

  /** First marked position of a stretch that has one. */
  lemma {:induction false} FirstMarked(c: seq<bool>, i: nat, x: nat) returns (y: nat)
    requires i <= x < |c| && !c[i] && c[x]
    ensures i < y <= x && IsLeftEdge(c, y)
    ensures forall z :: i <= z < y ==> !c[z]
    decreases x - i
  {
    if c[i + 1] {
      y := i + 1;
    } else {
      y := FirstMarked(c, i + 1, x);
    }
  }

  /** A match that appears only after blanking contains a blanked character. */
  lemma {:induction false} NewMatchCoversMark(m: string, t: string, i: nat, e: nat)
    requires i < e <= |m| == |t| && ControlEnd(t, i) == Some(e)
    requires i > 0 ==> !IsWord(m[i - 1])
    requires !Marks(Control, m)[i]
    ensures exists y :: i <= y < e && m[y] != t[y]
  {
    UnmarkedMeansNoMatch(Control, m, 0, i);
    if forall y :: i <= y < e ==> m[y] == t[y] {
      ControlLocal(m, t, i, e);
    }
  }

  lemma {:induction false} PrecededByWord(m: string, i: nat, y: nat)
    requires i < y < |m| && IsWord(m[i])
    requires forall z :: i <= z < y ==> IsWord(m[z]) || IsSpace(m[z])
    ensures !BeginsStatement(m, y)
  {
    var p := PrevSolid(m, y);
  }

  /** The first erased character inside such a match begins an erased match, right behind a word. */
  lemma {:induction false} FirstErased(m: string, c: seq<bool>, t: string, i: nat, e: nat) returns (y: nat)
    requires |m| == |c| && t == BlankAt(m, c) && i < e <= |m| && !c[i] && IsWord(t[i])
    requires forall z :: i <= z < e - 1 ==> IsWord(t[z]) || IsSpace(t[z])
    requires exists x :: i <= x < e && m[x] != t[x]
    ensures IsLeftEdge(c, y) && !BeginsStatement(m, y)
  {
    var x :| i <= x < e && m[x] != t[x];
    y := FirstMarked(c, i, x);
    assert forall z :: i <= z < y ==> t[z] == m[z];
    PrecededByWord(m, i, y);
  }

  lemma {:induction false} LeftEdgeMatches(m: string, y: nat)
    requires IsLeftEdge(Marks(Control, m), y)
    ensures ControlEnd(m, y).Some?
  {
    var end := LeftEdge(Control, m, y);
  }

  /** What a match of the stripped text looks like: a kept letter first, words and space, something erased inside. */
  lemma {:induction false} NewMatchShape(m: string, c: seq<bool>, t: string, i: nat) returns (e: nat)
    requires c == Marks(Control, m) && t == BlankAt(m, c) && i < |m| && ControlEnd(t, i).Some?
    ensures i < e <= |m| && !c[i] && IsWord(t[i])
    ensures forall z :: i <= z < e - 1 ==> IsWord(t[z]) || IsSpace(t[z])
    ensures exists x :: i <= x < e && m[x] != t[x]
  {
    e := ControlEnd(t, i).value;
    ControlMarksHaveSolidEdges(m);
    BridgedIffMatch(m, c, i);
    ControlShape(t, i, e);
    NewMatchCoversMark(m, t, i, e);
  }

  /** A match of the stripped text contains an erased match whose predecessor is a word, not a semicolon. */
  lemma {:induction false} ResidueSwallowsMatch(m: string, c: seq<bool>, t: string, i: nat) returns (y: nat)
    requires c == Marks(Control, m) && t == BlankAt(m, c) && i < |m| && ControlEnd(t, i).Some?
    ensures y < |m| && ControlEnd(m, y).Some? && !BeginsStatement(m, y)
  {
    var e := NewMatchShape(m, c, t, i);
    y := FirstErased(m, c, t, i, e);
    LeftEdgeMatches(m, y);
  }

  /**
   * If every match begins a statement, one strip leaves nothing: the assertion
   * that the repository's tests make for each of its files holds for all such texts.
   */
  lemma {:induction false} NoResidue(sql: string)
    requires EveryMatchBeginsStatement(Mask(sql))
    ensures Residual(sql) == []
  {
    var m := Mask(sql);
    var t := BlankAt(m, ControlMarks(sql));
    MaskCommutesWithStrip(sql);
    FindingsEmptyIff(t, 0);
    forall i | 0 <= i < |t|
      ensures ControlEnd(t, i).None?
    {
      if ControlEnd(t, i).Some? {
        var y := ResidueSwallowsMatch(m, ControlMarks(sql), t, i);
        assert false;
      }
    }
  }

  // ----- what a match at a known keyword comes to

  lemma {:induction false} KeywordDecides(s: string, i: nat, k: Keyword, p: nat, q: nat)
    requires i < p <= q <= |s| && KeywordEnd(k, s, i) == Some(p)
    requires forall y :: p <= y < q ==> IsSpace(s[y])
    requires q < |s| ==> !IsSpace(s[q])
    requires i == 0 || !IsWord(s[i - 1])
    ensures ControlEnd(s, i) == if q < |s| && s[q] == ';' then Some(q + 1) else None
  {
    SkipTo(s, p, q);
    ControlEndIff(s, i);
    if ControlEnd(s, i).Some? {
      var k' :| ClosesAt(k', s, i);
      OneKeyword(s, i, k, k');
    } else {
      assert ClosesAt(k, s, i) == (q < |s| && s[q] == ';');
    }
  }

  lemma {:induction false} SkipTo(s: string, i: nat, q: nat)
    requires i <= q <= |s|
    requires forall y :: i <= y < q ==> IsSpace(s[y])
    requires q < |s| ==> !IsSpace(s[q])
    ensures SkipSpace(s, i) == q
    decreases q - i
  {
    if i < q {
      SkipTo(s, i + 1, q);
    }
  }

  // ----- stripping until nothing is left

  function CountSemicolons(s: string): (n: nat) {
    if s == [] then 0 else (if s[0] == ';' then 1 else 0) + CountSemicolons(s[1..])
  }

  lemma {:induction false} BlankingLosesSemicolons(s: string, t: string)
    requires Blanking(s, t)
    ensures CountSemicolons(t) <= CountSemicolons(s)
    ensures (exists j :: 0 <= j < |s| && s[j] == ';' && t[j] != ';') ==> CountSemicolons(t) < CountSemicolons(s)
  {
    if s != [] {
      BlankingLosesSemicolons(s[1..], t[1..]);
      if j :| 0 < j < |s| && s[j] == ';' && t[j] != ';' {
        assert s[1..][j - 1] == ';' && t[1..][j - 1] != ';';
      }
    }
  }

  lemma {:induction false} ErasureLosesSemicolon(sql: string, m: string, i: nat)
    requires |sql| == |m| && i < |m| && ControlEnd(m, i).Some?
    requires forall j :: 0 <= j < |m| && m[j] == ';' ==> sql[j] == ';'
    ensures CountSemicolons(BlankAt(sql, Marks(Control, m))) < CountSemicolons(sql)
  {
    var c := Marks(Control, m);
    if !c[i] {
      UnmarkedMeansNoMatch(Control, m, 0, i);
    }
    var a, e := SpanAround(Control, m, 0, i);
    assert c[e - 1] == Marked(Control, m, 0, e - 1);
    BlankedSemicolon(sql, c, e - 1);
  }

  lemma {:induction false} BlankedSemicolon(s: string, c: seq<bool>, j: nat)
    requires |s| == |c| && j < |s| && c[j] && s[j] == ';'
    ensures CountSemicolons(BlankAt(s, c)) < CountSemicolons(s)
  {
    BlankAtIsBlanking(s, c);
    BlankingLosesSemicolons(s, BlankAt(s, c));
  }

  /** Each strip of a text that has findings removes at least one semicolon. */
  lemma {:induction false} StripMakesProgress(sql: string)
    requires Findings(sql) != []
    ensures CountSemicolons(Strip(sql)) < CountSemicolons(sql)
  {
    var m := Mask(sql);
    FindingsEmptyIff(m, 0);
    MaskFaithful(sql);
    var i :| 0 <= i < |m| && ControlEnd(m, i).Some?;
    ErasureLosesSemicolon(sql, m, i);
  }

  function StripTimes(sql: string, n: nat): (out: string)
    decreases n
  {
    if n == 0 then sql else StripTimes(Strip(sql), n - 1)
  }

  ghost predicate Clean(sql: string) {
    Findings(sql) == []
  }

  lemma {:induction false} StripTimesOnce(sql: string, k: nat, out: string)
    requires StripTimes(Strip(sql), k) == out
    ensures StripTimes(sql, k + 1) == out
  {
  }

  /** Repeated stripping reaches a text without findings in at most as many rounds as there are semicolons. */
  lemma {:induction false} StrippingTerminates(sql: string) returns (n: nat, out: string)
    ensures n <= CountSemicolons(sql)
    ensures out == StripTimes(sql, n) && Clean(out)
    decreases CountSemicolons(sql)
  {
    if Clean(sql) {
      n, out := 0, sql;
    } else {
      StripMakesProgress(sql);
      n, out := StrippingTerminates(Strip(sql));
      StripTimesOnce(sql, n, out);
      n := n + 1;
    }
  }

  // ----- what stripping spares

  lemma {:induction false} StretchAllOrNothing(s: string, m: string, c: seq<bool>, a: nat, b: nat)
    requires SolidEdges(c, m) && |s| == |m| && a <= b <= |s|
    requires forall j :: a <= j < b ==> IsSpace(m[j])
    ensures var t := BlankAt(s, c);
            || (t[a..b] == s[a..b] && forall j :: a <= j < b ==> !c[j])
            || forall j :: a <= j < b ==> t[j] == BlankChar(s[j])
  {
    forall j | a <= j < b
      ensures c[j] == c[a]
    {
      AllOrNothing(c, m, a, j);
    }
  }

  /**
   * A stretch that masking blanked (a comment, a literal, a dollar-quoted body, or
   * part of one) survives stripping character for character, or is blanked whole;
   * and it is touched only if it lies between a keyword and its semicolon.
   */
  lemma {:induction false} MaskedStretchSurvivesOrVanishes(sql: string, a: nat, b: nat)
    requires a <= b <= |sql|
    requires forall j :: a <= j < b ==> IsSpace(Mask(sql)[j])
    ensures Strip(sql)[a..b] == sql[a..b] || forall j :: a <= j < b ==> Strip(sql)[j] == BlankChar(sql[j])
    ensures Strip(sql)[a..b] == sql[a..b] ||
            exists s: nat, e: nat :: ControlMatch(Mask(sql), s, e) && s < a && b < e
  {
    var m, c := Mask(sql), ControlMarks(sql);
    ControlMarksHaveSolidEdges(m);
    StretchAllOrNothing(sql, m, c, a, b);
    if j :| a <= j < b && c[j] {
      StretchInsideSomeMatch(m, a, b, j);
    }
  }

  lemma {:induction false} StretchInsideSomeMatch(m: string, a: nat, b: nat, j: nat)
    requires a <= j < b <= |m| && Marks(Control, m)[j]
    requires forall j :: a <= j < b ==> IsSpace(m[j])
    ensures exists s: nat, e: nat :: ControlMatch(m, s, e) && s < a && b < e
  {
    var s, e := SpanAround(Control, m, 0, j);
    ControlShape(m, s, e);
    StretchInsideMatch(m, s, e, a, b);
    assert ControlMatch(m, s, e);
  }

  ghost predicate ControlMatch(m: string, s: nat, e: nat) {
    s < |m| && ControlEnd(m, s) == Some(e)
  }

  /** A match that meets a blank stretch contains it: its own ends are not blank. */
  lemma {:induction false} StretchInsideMatch(m: string, s: nat, e: nat, a: nat, b: nat)
    requires s < e <= |m| && a < b <= |m| && s < b && a < e
    requires !IsSpace(m[s]) && !IsSpace(m[e - 1])
    requires forall j :: a <= j < b ==> IsSpace(m[j])
    ensures s < a && b < e
  {
  }

  /** The destructive marker stands at `k`, and stripping touches none of it. */
  ghost predicate MarkerKeptAt(sql: string, k: nat) {
    && HasAt(sql, k, DESTRUCTIVE_MARKER)
    && forall j :: k <= j < k + |DESTRUCTIVE_MARKER| ==> !ControlMarks(sql)[j]
  }

  /** Stripping never creates the destructive marker, and keeps it exactly where no erased character lies in it. */
  lemma {:induction false} MarkerAfterStrip(sql: string)
    ensures DeclaresDestructive(Strip(sql)) <==> exists k: nat :: MarkerKeptAt(sql, k)
    ensures DeclaresDestructive(Strip(sql)) ==> DeclaresDestructive(sql)
  {
    var out, c := Strip(sql), ControlMarks(sql);
    forall k: nat
      ensures HasAt(out, k, DESTRUCTIVE_MARKER) <==> MarkerKeptAt(sql, k)
    {
      SolidTextAfterBlank(sql, c, k, DESTRUCTIVE_MARKER);
    }
    if DeclaresDestructive(out) {
      var k: nat :| k <= |out| && HasAt(out, k, DESTRUCTIVE_MARKER);
      assert MarkerKeptAt(sql, k);
    }
    if k: nat :| MarkerKeptAt(sql, k) {
      assert HasAt(out, k, DESTRUCTIVE_MARKER);
    }
  }

  lemma {:induction false} SolidTextAfterBlank(s: string, c: seq<bool>, k: nat, w: string)
    requires |s| == |c|
    requires forall x :: 0 <= x < |w| ==> w[x] != ' ' && w[x] != '\n'
    ensures HasAt(BlankAt(s, c), k, w) <==> HasAt(s, k, w) && forall j :: k <= j < k + |w| ==> !c[j]
  {
    var t := BlankAt(s, c);
    if HasAt(t, k, w) {
      forall j | k <= j < k + |w|
        ensures s[j] == t[j] && !c[j]
      {
        assert t[j] == t[k..k + |w|][j - k] == w[j - k];
      }
      assert s[k..k + |w|] == t[k..k + |w|];
    }
    if k + |w| <= |s| && forall j :: k <= j < k + |w| ==> !c[j] {
      assert s[k..k + |w|] == t[k..k + |w|];
    }
  }
}
