/**
 * The laws of stripping: it commutes with masking, so what is left after it can
 * be read off the text before it.
 */
module StripLaws {
  import opened Text
  import opened Scanner
  import opened Masking
  import opened Stripper

  // ----- a masking match depends only on its own characters and on a quote right behind it

  /** A tagged closer has no dollar sign between its two. */
  lemma {:induction false} DollarInsideTag(t: string, k: nat, x: nat, tag: string)
    requires k < x < k + 1 + |tag| && x < |t| && t[x] == '$'
    requires forall y :: 0 <= y < |tag| ==> tag[y] != '$'
    ensures !TagCloserAt(t, k, tag)
  {
    assert tag[x - (k + 1)] != '$';
    if k + 1 + |tag| < |t| {
      assert t[k + 1 + (x - (k + 1))] == '$';
    }
  }

  lemma {:induction false} TagCloserAgrees(u: string, t: string, k: nat, tag: string)
    requires |u| == |t| && k + 1 + |tag| < |u|
    requires forall x :: k <= x <= k + 1 + |tag| ==> t[x] == u[x]
    ensures TagCloserAt(u, k, tag) ==> TagCloserAt(t, k, tag)
  {
  }

  /** A dollar quote that ends at `e` has a dollar sign at or after `k` besides its last. */
  lemma {:induction false} CloserHasDollar(u: string, k: nat, e: nat, tag: string) returns (x: nat)
    requires k < e <= |u| && DollarClose(u, k, tag) == Some(e)
    ensures k <= x < e - 1 && u[x] == '$'
    decreases |u| - k
  {
    if TagCloserAt(u, k, tag) || BareCloserAt(u, k) {
      x := k;
    } else {
      x := CloserHasDollar(u, k + 1, e, tag);
    }
  }

  lemma {:induction false} DollarCloseLocal(u: string, t: string, k: nat, e: nat, tag: string)
    requires |u| == |t| && k <= e <= |u| && DollarClose(u, k, tag) == Some(e)
    requires forall x :: 0 <= x < |tag| ==> tag[x] != '$'
    requires forall x :: k <= x < e ==> t[x] == u[x]
    ensures DollarClose(t, k, tag) == Some(e)
    decreases |u| - k
  {
    if TagCloserAt(u, k, tag) {
      TagCloserAgrees(u, t, k, tag);
    } else {
      var x := if BareCloserAt(u, k) then k + 1 else k;
      if !BareCloserAt(u, k) {
        DollarCloseLocal(u, t, k + 1, e, tag);
        x := CloserHasDollar(u, k + 1, e, tag);
      }
      assert !TagCloserAt(t, k, tag) by {
        if k + 1 + |tag| <= x {
          TagCloserAgrees(t, u, k, tag);
        } else {
          DollarInsideTag(t, k, x, tag);
        }
      }
    }
  }

  lemma {:induction false} DollarLocal(u: string, t: string, i: nat, e: nat)
    requires |u| == |t| && i < e <= |u| && DollarEnd(u, i) == Some(e)
    requires forall x :: i <= x < e ==> t[x] == u[x]
    ensures DollarEnd(t, i) == Some(e)
  {
    var q := TagEnd(u, i + 1);
    if i + 1 < q {
      WordEndUnique(t, i + 2, q);
    }
    assert t[i + 1..q] == u[i + 1..q];
    DollarCloseLocal(u, t, q + 1, e, u[i + 1..q]);
  }

  lemma {:induction false} BlockCloseLocal(u: string, t: string, k: nat, e: nat)
    requires |u| == |t| && k <= e <= |u| && BlockClose(u, k) == Some(e)
    requires forall x :: k <= x < e ==> t[x] == u[x]
    ensures BlockClose(t, k) == Some(e)
    decreases |u| - k
  {
    if !(u[k] == '*' && u[k + 1] == '/') {
      BlockCloseLocal(u, t, k + 1, e);
    }
  }

  lemma {:induction false} LineCloseLocal(u: string, t: string, k: nat)
    requires Blanking(u, t) && k <= |u|
    requires forall x :: k <= x < LineClose(u, k) ==> t[x] == u[x]
    ensures LineClose(t, k) == LineClose(u, k)
    decreases |u| - k
  {
    if k < |u| && u[k] != '\n' {
      LineCloseLocal(u, t, k + 1);
    }
  }

  /** The quote that closes is the last of its run, unless the text runs out after it. */
  lemma {:induction false} QuoteCloseLocal(u: string, t: string, j: nat, e: nat, last: Option<nat>)
    requires Blanking(u, t) && j <= |u| && e <= |u| && (last.Some? ==> last.value < j)
    requires QuoteClose(u, j, last) == Some(e)
    requires forall x :: j <= x < e ==> t[x] == u[x]
    requires e < |u| && u[e] == '\'' ==> t[e] == '\''
    ensures QuoteClose(t, j, last) == Some(e)
    decreases |u| - j
  {
    if j == |u| {
    } else if u[j] != '\'' {
      QuoteCloseLocal(u, t, j + 1, e, last);
    } else if j + 1 < |u| && u[j + 1] == '\'' {
      QuoteCloseLocal(u, t, j + 2, e, Some(j + 1));
    }
  }

  lemma {:induction false} Local(p: Pattern, u: string, t: string, i: nat, e: nat)
    requires p != Control && Blanking(u, t) && i < e <= |u| && MatchEnd(p, u, i) == Some(e)
    requires forall x :: i <= x < e ==> t[x] == u[x]
    requires e < |u| && u[e] == '\'' ==> t[e] == '\''
    ensures MatchEnd(p, t, i) == Some(e)
  {
    match p
    case Dollar => DollarLocal(u, t, i, e);
    case Block => BlockCloseLocal(u, t, i + 2, e);
    case Line => LineCloseLocal(u, t, i + 2);
    case Quote => QuoteCloseLocal(u, t, i + 1, e, None);
  }

  // ----- the marks of stripping, seen from a masked text

  ghost predicate IsLeftEdge(c: seq<bool>, j: nat) {
    j < |c| && c[j] && (j == 0 || !c[j - 1])
  }

  ghost predicate IsRightEdge(c: seq<bool>, j: nat) {
    j < |c| && c[j] && (j + 1 == |c| || !c[j + 1])
  }

  /**
   * Where the marked region begins or ends, the masked text has a letter or a
   * semicolon: nothing that masking or blanking writes.
   */
  ghost predicate SolidEdges(c: seq<bool>, m: string) {
    && |c| == |m|
    && (forall j: nat :: IsLeftEdge(c, j) ==> IsWord(m[j]))
    && (forall j: nat :: IsRightEdge(c, j) ==> m[j] == ';')
  }

  lemma {:induction false} WordIsWord(s: string, i: nat, w: string)
    requires HasWord(s, i, w) && forall x :: 0 <= x < |w| ==> 'A' <= w[x] <= 'Z'
    ensures forall y :: i <= y < i + |w| ==> IsWord(s[y])
  {
  }

  lemma {:induction false} LeftEdgeIsLetter(m: string, j: nat)
    requires IsLeftEdge(Marks(Control, m), j)
    ensures IsWord(m[j])
  {
    var e := LeftEdge(Control, m, j);
    WordIsWord(m, j, Head(PhraseAt(m, j).value));
  }

  lemma {:induction false} RightEdgeIsSemicolon(m: string, j: nat)
    requires IsRightEdge(Marks(Control, m), j)
    ensures m[j] == ';'
  {
    var a := RightEdge(Control, m, j);
  }

  lemma {:induction false} ControlMarksHaveSolidEdges(m: string)
    ensures SolidEdges(Marks(Control, m), m)
  {
    var c := Marks(Control, m);
    forall j: nat | IsLeftEdge(c, j)
      ensures IsWord(m[j])
    {
      LeftEdgeIsLetter(m, j);
    }
    forall j: nat | IsRightEdge(c, j)
      ensures m[j] == ';'
    {
      RightEdgeIsSemicolon(m, j);
    }
  }

  // ----- masking commutes with blanking such a region

  /** If a region with solid edges meets a stretch that is blank in `m`, it contains it. */
  lemma {:induction false} AllOrNothing(c: seq<bool>, m: string, a: nat, x: nat)
    requires SolidEdges(c, m) && a <= x < |m|
    requires forall y :: a <= y <= x ==> IsSpace(m[y])
    ensures c[a] == c[x]
    decreases x - a
  {
    if a < x {
      AllOrNothing(c, m, a, x - 1);
      assert !IsLeftEdge(c, x) && !IsRightEdge(c, x - 1);
    }
  }

  /** Over a blanked stretch no masking pattern matches, and the traversal walks straight through. */
  lemma {:induction false} BlankStretch(p: Pattern, t: string, i: nat, e: nat, j: nat)
    requires p != Control && i <= e <= |t| && j < |t|
    requires forall x :: i <= x < e ==> t[x] == BlankChar(t[x])
    ensures Marked(p, t, i, j) == Marked(p, t, e, j)
    decreases e - i
  {
    if i < e {
      assert MatchEnd(p, t, i).None? by {
        if MatchEnd(p, t, i).Some? {
          MatchBeginsSolid(p, t, i);
        }
      }
      BlankStretch(p, t, i + 1, e, j);
    }
  }

  /**
   * The traversals of `u` and of `u` with `c` blanked keep in step: a match
   * either lies inside the blanked region and is gone, or lies outside and is kept.
   */
  lemma {:induction false} MarksInStep(p: Pattern, u: string, m: string, c: seq<bool>, i: nat, j: nat)
    requires p != Control && SolidEdges(c, m) && |u| == |m|
    requires Blanking(Pass(p, u), m)
    requires Visited(p, u, i) && i <= j < |u|
    ensures Marked(p, BlankAt(u, c), i, j) == (Marked(p, u, i, j) && !c[j])
    decreases |u| - i
  {
    var t := BlankAt(u, c);
    BlankAtIsBlanking(u, c);
    VisitedStep(p, u, i);
    var r := MatchEnd(p, u, i);
    if r.None? {
      if MatchEnd(p, t, i).Some? {
        Monotone(p, u, t, i);
        assert false;
      }
      if i < j {
        MarksInStep(p, u, m, c, i + 1, j);
      }
    } else {
      var e := r.value;
      forall x | i <= x < e
        ensures IsSpace(m[x]) && c[x] == c[i]
      {
        forall y | i <= y <= x
          ensures IsSpace(m[y])
        {
          assert Pass(p, u)[y] == BlankChar(u[y]);
        }
        AllOrNothing(c, m, i, x);
      }
      if c[i] {
        BlankStretch(p, t, i, e, j);
      } else {
        if e < |u| && u[e] == '\'' {
          QuoteIsNoEdge(p, u, m, c, i, e);
        }
        Local(p, u, t, i, e);
      }
      if e <= j {
        MarksInStep(p, u, m, c, e, j);
      }
    }
  }

  /** The character behind a match outside the region is not the first of the region if it is a quote. */
  lemma {:induction false} QuoteIsNoEdge(p: Pattern, u: string, m: string, c: seq<bool>, i: nat, e: nat)
    requires SolidEdges(c, m) && |u| == |m| && Blanking(Pass(p, u), m)
    requires i < e < |u| && u[e] == '\'' && !c[e - 1]
    ensures !c[e]
  {
    PassIsBlanking(p, u);
    BlankingTransitive(u, Pass(p, u), m);
    assert !IsLeftEdge(c, e);
  }

  lemma {:induction false} PassCommutes(p: Pattern, u: string, m: string, c: seq<bool>)
    requires p != Control && SolidEdges(c, m) && |u| == |m|
    requires Blanking(Pass(p, u), m)
    ensures Pass(p, BlankAt(u, c)) == BlankAt(Pass(p, u), c)
  {
    var t := BlankAt(u, c);
    forall j | 0 <= j < |u|
      ensures Pass(p, t)[j] == BlankAt(Pass(p, u), c)[j]
    {
      MarksInStep(p, u, m, c, 0, j);
      assert Marks(p, t)[j] == Marked(p, t, 0, j);
      assert Marks(p, u)[j] == Marked(p, u, 0, j);
    }
  }

  /**
   * Masking the stripped text is the same as blanking the matches in the masked
   * text. No comment, literal or dollar quote is opened, closed or moved by stripping.
   */
  lemma {:induction false} MaskCommutesWithStrip(sql: string)
    ensures Mask(Strip(sql)) == BlankAt(Mask(sql), ControlMarks(sql))
  {
    var a := Pass(Dollar, sql);
    var b := Pass(Block, a);
    var d := Pass(Line, b);
    var m := Pass(Quote, d);
    var c := ControlMarks(sql);
    ControlMarksHaveSolidEdges(m);
    PassIsBlanking(Block, a);
    PassIsBlanking(Line, b);
    PassIsBlanking(Quote, d);
    BlankingTransitive(b, d, m);
    BlankingTransitive(a, b, m);
    PassCommutes(Dollar, sql, m, c);
    PassCommutes(Block, a, m, c);
    PassCommutes(Line, b, m, c);
    PassCommutes(Quote, d, m, c);
  }
}
