/** What a migration file asks for does not depend on whether its lines end in `\n` or in `\r\n`. */
module WindowsFiles {
  import opened Text
  import opened Scanner
  import opened Masking
  import opened Stripper
  import opened Checksum
  import opened SqlStatements
  import opened LineEndings

  // ----- masking, stripping and findings

  lemma {:induction false} StartPassing(p: Pattern, m: string, m': string, x: string, y: string)
    requires Passing(p, m, m', x, y)
    ensures Windows(Blanked(p, m, x), Blanked(p, m', y))
  {
    hide Windows, Passing, Blanked;
    PassingAligned(p, m, m', x, y);
    PassInStep(p, m, 0, m', 0, x, y);
    AlignedWhole(Blanked(p, m, x), Blanked(p, m', y));
  }

  lemma {:induction false} PassingAligned(p: Pattern, m: string, m': string, x: string, y: string)
    requires Passing(p, m, m', x, y)
    ensures |m| == |x| && |m'| == |y|
    ensures Aligned(m, 0, m', 0) && BothVisited(p, m, 0, m', 0) && PrevAlike(m, 0, m', 0)
  {
    hide Marked;
    WholeAligned(m, m');
  }

  lemma {:induction false} AlignedWhole(u: string, v: string)
    requires Aligned(u, 0, v, 0)
    ensures Windows(u, v)
  {
    assert u[0..] == u && v[0..] == v;
  }

  lemma {:induction false} OnePass(p: Pattern, u: string, v: string)
    requires Windows(u, v)
    ensures Windows(Pass(p, u), Pass(p, v))
  {
    hide Windows, Marks;
    StartPassing(p, u, v, u, v);
  }

  lemma {:induction false} MaskInStep(u: string, v: string)
    requires Windows(u, v)
    ensures Windows(Mask(u), Mask(v))
  {
    hide Windows, Pass;
    OnePass(Dollar, u, v);
    OnePass(Block, Pass(Dollar, u), Pass(Dollar, v));
    OnePass(Line, Pass(Block, Pass(Dollar, u)), Pass(Block, Pass(Dollar, v)));
    OnePass(Quote, Pass(Line, Pass(Block, Pass(Dollar, u))), Pass(Line, Pass(Block, Pass(Dollar, v))));
  }

  lemma {:induction false} StripInStep(u: string, v: string)
    requires Windows(u, v)
    ensures Windows(Strip(u), Strip(v))
  {
    hide Windows, Mask, Marks;
    MaskInStep(u, v);
    MaskFaithful(u);
    MaskFaithful(v);
    StartPassing(Control, Mask(u), Mask(v), u, v);
  }

  lemma {:induction false} CollapseInStep(u: string, v: string, after: bool)
    requires Windows(u, v)
    ensures Collapse(v, after) == Collapse(u, after)
    decreases |u|
  {
    if u != [] {
      if u[0] == '\n' {
        assert v[1..][0] == '\n' && v[1..][1..] == v[2..];
        CollapseInStep(u[1..], v[2..], true);
      } else {
        CollapseInStep(u[1..], v[1..], IsSpace(u[0]));
      }
    }
  }

  lemma {:induction false} NewlinesInStep(u: string, i: nat, v: string, j: nat)
    requires Windows(u, v) && Aligned(u, i, v, j)
    ensures i <= |u| && j <= |v| && NewlinesBefore(v, j) == NewlinesBefore(u, i)
  {
    hide Windows, Aligned;
    AlignedStep(u, i, v, j);
    AlignedUnique(u, i, v, j);
    WholeAligned(u, v);
    CountNewlines(u, 0, v, 0, i, j);
  }

  lemma {:induction false} CountNewlines(u: string, a: nat, v: string, b: nat, i: nat, j: nat)
    requires a <= i <= |u| && j <= |v| && Aligned(u, a, v, b) && Aligned(u, i, v, j)
    requires b <= |v| && NewlinesBefore(v, b) == NewlinesBefore(u, a)
    ensures NewlinesBefore(v, j) == NewlinesBefore(u, i)
    decreases i - a
  {
    hide Aligned;
    AlignedStep(u, a, v, b);
    AlignedUnique(u, i, v, j);
    AlignedUnique(u, a, v, b);
    if a < i {
      if u[a] == '\n' {
        assert NewlinesBefore(v, b + 2) == NewlinesBefore(v, b + 1) + 1 == NewlinesBefore(v, b) + 1;
        CountNewlines(u, a + 1, v, b + 2, i, j);
      } else {
        CountNewlines(u, a + 1, v, b + 1, i, j);
      }
    }
  }

  lemma {:induction false} FindingsInStep(m: string, i: nat, m': string, j: nat)
    requires Windows(m, m') && Aligned(m, i, m', j) && i <= |m| && j <= |m'| && PrevAlike(m, i, m', j)
    ensures FindingsIn(m', j) == FindingsIn(m, i)
    decreases |m| - i
  {
    hide Windows, Aligned, MatchEnd, NewlinesBefore, Reported, FindingsIn;
    AlignedStep(m, i, m', j);
    FindingsUnfold(m, i);
    FindingsUnfold(m', j);
    if i < |m| {
      MatchInStep(Control, m, i, m', j);
      if m[i] == '\n' {
        FindingsUnfold(m', j + 1);
        BlankBeginsNothing(Control, m, i);
        BlankBeginsNothing(Control, m', j);
        BlankBeginsNothing(Control, m', j + 1);
        FindingsInStep(m, i + 1, m', j + 2);
      } else if MatchEnd(Control, m, i).None? {
        FindingsInStep(m, i + 1, m', j + 1);
      } else {
        var e, f := MatchEnd(Control, m, i).value, MatchEnd(Control, m', j).value;
        SameEnd(Control, m, i, m', j);
        SliceAligned(m, i, e, m', j, f);
        ReportedInStep(m[i..e], m'[j..f]);
        NewlinesInStep(m, i, m', j);
        FindingsInStep(m, e, m', f);
      }
    }
  }

  lemma {:induction false} FindingsUnfold(m: string, i: nat)
    requires i <= |m|
    ensures FindingsIn(m, i) ==
            if i == |m| then [] else
              match MatchEnd(Control, m, i)
              case Some(e) => [Finding(1 + NewlinesBefore(m, i), Reported(m[i..e]))] + FindingsIn(m, e)
              case None => FindingsIn(m, i + 1)
  {
    hide MatchEnd, NewlinesBefore, Reported;
  }

  lemma {:induction false} ReportedInStep(u: string, v: string)
    requires Windows(u, v)
    ensures Reported(v) == Reported(u)
  {
    hide Windows, Trim, Collapse;
    CollapseInStep(u, v, false);
  }

  lemma {:induction false} SameFindings(u: string, v: string)
    requires Windows(u, v)
    ensures Findings(v) == Findings(u)
  {
    hide Windows, Mask;
    MaskInStep(u, v);
    WholeAligned(Mask(u), Mask(v));
    FindingsInStep(Mask(u), 0, Mask(v), 0);
  }

  // ----- the destructive marker

  lemma {:induction false} IncludesInStep(u: string, v: string, w: string)
    requires Windows(u, v) && w != [] && forall x :: 0 <= x < |w| ==> w[x] !in {'\r', ' ', '\n'}
    ensures Includes(v, w) <==> Includes(u, w)
  {
    hide Windows;
    WholeAligned(u, v);
    if k: nat :| k <= |u| && HasAt(u, k, w) {
      var j := ImageOf(u, 0, v, 0, k);
      SolidSlice(u, k, w);
      RunForward(u, k, v, j, |w|);
      assert HasAt(v, j, w);
    }
    if k: nat :| k <= |v| && HasAt(v, k, w) {
      SolidSlice(v, k, w);
      assert v[k] !in {'\r', ' ', '\n'};
      var i := SourceOf(u, 0, v, 0, k);
      RunBackward(u, i, v, k, |w|);
      assert HasAt(u, i, w);
    }
  }

  lemma {:induction false} ImageOf(u: string, a: nat, v: string, b: nat, k: nat) returns (j: nat)
    requires Aligned(u, a, v, b) && a <= k <= |u|
    ensures Aligned(u, k, v, j) && j <= |v|
    decreases k - a
  {
    hide Aligned;
    AlignedStep(u, a, v, b);
    if a == k {
      j := b;
    } else if u[a] == '\n' {
      j := ImageOf(u, a + 1, v, b + 2, k);
    } else {
      j := ImageOf(u, a + 1, v, b + 1, k);
    }
  }

  lemma {:induction false} SourceOf(u: string, a: nat, v: string, b: nat, k: nat) returns (i: nat)
    requires Aligned(u, a, v, b) && b <= k < |v| && v[k] !in {'\r', ' ', '\n'}
    ensures Aligned(u, i, v, k)
    decreases k - b
  {
    hide Aligned;
    AlignedStep(u, a, v, b);
    if b == k {
      i := a;
    } else if u[a] == '\n' {
      i := SourceOf(u, a + 1, v, b + 2, k);
    } else {
      i := SourceOf(u, a + 1, v, b + 1, k);
    }
  }

  // ----- statements

  /** The same statement; the text of work may have changed its line endings. */
  ghost predicate StmtAlike(a: Stmt, b: Stmt) {
    match a
    case Txn(_, _) => b == a
    case Work(text) => b.Work? && Windows(text, b.text)
  }

  ghost predicate StmtsAlike(ss: seq<Stmt>, tt: seq<Stmt>) {
    |tt| == |ss| && forall k :: 0 <= k < |ss| ==> StmtAlike(ss[k], tt[k])
  }

  lemma {:induction false} SemicolonInStep(m: string, a: nat, m': string, b: nat)
    requires Aligned(m, a, m', b) && a <= |m| && b <= |m'|
    ensures Aligned(m, SemicolonFrom(m, a), m', SemicolonFrom(m', b))
    decreases |m| - a
  {
    hide Aligned;
    AlignedStep(m, a, m', b);
    if a < |m| && m[a] != ';' {
      if m[a] == '\n' {
        assert SemicolonFrom(m', b) == SemicolonFrom(m', b + 1) == SemicolonFrom(m', b + 2);
        SemicolonInStep(m, a + 1, m', b + 2);
      } else {
        SemicolonInStep(m, a + 1, m', b + 1);
      }
    }
  }

  lemma {:induction false} StmtInStep(u: string, m: string, i: nat, e: nat, v: string, m': string, j: nat, f: nat)
    requires i < e <= |m| == |u| && j < f <= |m'| == |v|
    requires Aligned(m, i, m', j) && Aligned(m, e, m', f) && Aligned(u, i, v, j) && Aligned(u, e, v, f)
    ensures StmtAlike(StmtAt(u, m, i, e), StmtAt(v, m', j, f))
  {
    hide Aligned, Windows, PhraseAt, KeywordEnd;
    PhraseInStep(m, i, m', j);
    SliceAligned(u, i, e, v, j, f);
    AlignedStep(m, e, m', f);
    var k := PhraseAt(m, i);
    if k.Some? {
      var p, q := KeywordEnd(k.value, m, i).value, KeywordEnd(k.value, m', j).value;
      SkipSpaceInStep(m, p, m', q);
      SameOffset(m, SkipSpace(m, p), m', SkipSpace(m', q), e, f);
    }
  }

  /** Aligned offsets are equal in one text exactly when they are in the other. */
  lemma {:induction false} SameOffset(u: string, i: nat, v: string, j: nat, e: nat, f: nat)
    requires Aligned(u, i, v, j) && Aligned(u, e, v, f)
    ensures i == e <==> j == f
    ensures i < e <==> j < f
  {
    hide Aligned;
    AlignedStep(u, i, v, j);
    AlignedStep(u, e, v, f);
    AlignedUnique(u, i, v, j);
    AlignedUnique(u, e, v, f);
    if i < e {
      WidthFalls(u, i, e);
    } else if e < i {
      WidthFalls(u, e, i);
    }
  }

  lemma {:induction false} WidthFalls(u: string, i: nat, e: nat)
    requires i < e <= |u|
    ensures Width(u, e) < Width(u, i)
    decreases e - i
  {
    if i + 1 < e {
      WidthFalls(u, i + 1, e);
    }
  }

  lemma {:induction false} StmtsInStep(u: string, m: string, a: nat, v: string, m': string, b: nat)
    requires a <= |m| == |u| && b <= |m'| == |v| && Aligned(m, a, m', b)
    requires Windows(u, v) && SameBreaks(m, u) && SameBreaks(m', v)
    ensures StmtsAlike(StmtsFrom(u, m, a), StmtsFrom(v, m', b))
    decreases |m| - a
  {
    hide Aligned, Windows, StmtAt, StmtAlike, SameBreaks, SkipSpace, SemicolonFrom, StmtsFrom;
    var e, f := SemicolonFrom(m, a), SemicolonFrom(m', b);
    var i, j := SkipSpace(m, a), SkipSpace(m', b);
    SemicolonInStep(m, a, m', b);
    SkipSpaceInStep(m, a, m', b);
    SameOffset(m, i, m', j, e, f);
    AlignedStep(m, e, m', f);
    Unfold(u, m, a, e, i);
    Unfold(v, m', b, f, j);
    if i < e {
      AlignedElsewhere(m, i, m', j, u, v);
      AlignedElsewhere(m, e, m', f, u, v);
      StmtInStep(u, m, i, e, v, m', j, f);
    }
    if e < |m| {
      SemicolonThere(m, a);
      StmtsInStep(u, m, e + 1, v, m', f + 1);
      AlikeJoin(if i < e then [StmtAt(u, m, i, e)] else [], StmtsFrom(u, m, e + 1),
                if j < f then [StmtAt(v, m', j, f)] else [], StmtsFrom(v, m', f + 1));
    }
  }

  lemma {:induction false} SemicolonThere(m: string, a: nat)
    requires a <= |m| && SemicolonFrom(m, a) < |m|
    ensures m[SemicolonFrom(m, a)] == ';' && a <= SemicolonFrom(m, a)
  {
  }

  lemma {:induction false} AlikeJoin(a: seq<Stmt>, ss: seq<Stmt>, b: seq<Stmt>, tt: seq<Stmt>)
    requires StmtsAlike(a, b) && StmtsAlike(ss, tt)
    ensures StmtsAlike(a + ss, b + tt)
  {
    hide StmtAlike;
  }

  lemma {:induction false} SameStatements(u: string, v: string)
    requires Windows(u, v)
    ensures StmtsAlike(Statements(u), Statements(v))
  {
    hide Windows, Mask, StmtsFrom, StmtsAlike;
    MaskInStep(u, v);
    MaskFaithful(u);
    MaskFaithful(v);
    WholeAligned(Mask(u), Mask(v));
    StmtsInStep(u, Mask(u), 0, v, Mask(v), 0);
  }

  // ----- the two spellings of a file

  lemma {:induction false} SpellingsInStep(s: string)
    ensures Windows(Convert(s, Lf), Convert(s, CrLf))
    decreases |s|
  {
    if s != [] {
      var crlf := |s| >= 2 && s[0] == '\r' && s[1] == '\n';
      var rest := if crlf then s[2..] else s[1..];
      SpellingsInStep(rest);
      var u, v := Convert(s, Lf), Convert(s, CrLf);
      if crlf || s[0] == '\r' || s[0] == '\n' {
        assert u == ['\n'] + Convert(rest, Lf) && v == ['\r', '\n'] + Convert(rest, CrLf);
        assert u[1..] == Convert(rest, Lf) && v[2..] == Convert(rest, CrLf);
      } else {
        assert u[1..] == Convert(rest, Lf) && v[1..] == Convert(rest, CrLf);
      }
    }
  }

  /**
   * For every text, its spellings with `\n` and with `\r\n` have the same findings, the
   * same residue, declare the same, and ask for the same statements before and after
   * stripping, up to the line endings inside the text of work.
   */
  lemma {:induction false} WindowsCheckoutIsTheSame(s: string)
    ensures var u, v := Convert(s, Lf), Convert(s, CrLf);
            && Findings(v) == Findings(u) && Residual(v) == Residual(u)
            && (DeclaresDestructive(Strip(v)) <==> DeclaresDestructive(Strip(u)))
            && StmtsAlike(Statements(u), Statements(v)) && StmtsAlike(Statements(Strip(u)), Statements(Strip(v)))
  {
    hide Windows, Findings, Strip, Statements, StmtsAlike, Convert, Includes;
    SpellingsInStep(s);
    var u, v := Convert(s, Lf), Convert(s, CrLf);
    StripInStep(u, v);
    SameFindings(u, v);
    SameFindings(Strip(u), Strip(v));
    IncludesInStep(Strip(u), Strip(v), DESTRUCTIVE_MARKER);
    SameStatements(u, v);
    SameStatements(Strip(u), Strip(v));
  }
}
