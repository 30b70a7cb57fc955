/** Inputs on which one strip is not enough, and on which the destructive marker is lost. */
module Counterexamples {
  import opened Text
  import opened Scanner
  import opened Masking
  import opened Stripper
  import opened StripLaws
  import opened Residue
  import opened Checksum

  /** Text without any of the four characters that begin a masked region is its own mask. */
  lemma {:induction false} PlainTextIsItsOwnMask(s: string)
    requires forall i :: 0 <= i < |s| ==> s[i] !in "$/-'"
    ensures Mask(s) == s
  {
    forall p: Pattern | p != Control
      ensures Pass(p, s) == s
    {
      forall i | 0 <= i < |s|
        ensures MatchEnd(p, s, i).None?
      {
        if MatchEnd(p, s, i).Some? {
          MatchBeginsSolid(p, s, i);
        }
      }
      MatchlessPassIsIdentity(p, s);
    }
  }

  /** With a single match in the text, exactly its characters are marked. */
  lemma {:induction false} OnlyMatch(p: Pattern, s: string, a: nat, e: nat, j: nat)
    requires a < |s| && MatchEnd(p, s, a) == Some(e) && j < |s|
    requires forall i :: 0 <= i < |s| && i != a ==> MatchEnd(p, s, i).None?
    ensures Marks(p, s)[j] <==> a <= j < e
  {
    if !Marks(p, s)[a] {
      UnmarkedMeansNoMatch(p, s, 0, a);
    }
    var b, f := SpanAround(p, s, 0, a);
    assert a <= j < e ==> Marked(p, s, 0, j);
    if Marks(p, s)[j] {
      var b', f' := SpanAround(p, s, 0, j);
    }
  }

  /** Control can only begin at a word character with none before it. */
  lemma {:induction false} NoControlAt(s: string, i: nat)
    requires i < |s| && (!IsWord(s[i]) || (i > 0 && IsWord(s[i - 1])))
    ensures ControlEnd(s, i) == None
  {
    if ControlEnd(s, i).Some? {
      PhraseShape(s, i, PhraseAt(s, i).value);
    }
  }

  // ----- one strip is not always enough

  const NESTED: string := "COMMIT BEGIN; ;"

  lemma {:induction false} NestedMatches(i: nat)
    requires i < |NESTED|
    ensures ControlEnd(NESTED, i) == if i == 7 then Some(13) else None
  {
    if i == 0 {
      assert KeywordEnd(Keyword.Commit, NESTED, 0) == Some(6);
      KeywordDecides(NESTED, 0, Keyword.Commit, 6, 7);
    } else if i == 7 {
      assert KeywordEnd(Keyword.Begin, NESTED, 7) == Some(12);
      KeywordDecides(NESTED, 7, Keyword.Begin, 12, 12);
    } else {
      NoControlAt(NESTED, i);
    }
  }

  lemma {:induction false} SoftSkipTo(m: string, c: seq<bool>, i: nat, q: nat)
    requires i <= q < |m| == |c|
    requires forall y :: i <= y < q ==> c[y] || IsSpace(m[y])
    requires !c[q] && !IsSpace(m[q])
    ensures SoftSkip(m, c, i) == q
    decreases q - i
  {
    if i < q {
      SoftSkipTo(m, c, i + 1, q);
    }
  }

  lemma {:induction false} NestedBridge(c: seq<bool>)
    requires |c| == |NESTED| && forall j :: 0 <= j < |c| ==> (c[j] <==> 7 <= j < 13)
    ensures Bridged(NESTED, c, 0)
  {
    assert KeptWord(NESTED, c, 0, Head(Keyword.Commit));
    assert ThroughKeyword(Keyword.Commit, NESTED, c, 0) == Some(6);
    SoftSkipTo(NESTED, c, 6, 14);
    assert ClosesThrough(Keyword.Commit, NESTED, c, 0);
  }

  lemma {:induction false} NestedMarks(j: nat)
    requires j < |NESTED|
    ensures Marks(Control, NESTED)[j] <==> 7 <= j < 13
  {
    hide ControlEnd;
    forall i | 0 <= i < |NESTED|
      ensures MatchEnd(Control, NESTED, i) == if i == 7 then Some(13) else None
    {
      NestedMatches(i);
    }
    OnlyMatch(Control, NESTED, 7, 13, j);
  }

  /** The premise of `NoResidue` is needed: here erasing the inner match completes the outer one. */
  lemma {:induction false} OneStripIsNotEnough()
    ensures Residual(NESTED) != []
    ensures !EveryMatchBeginsStatement(Mask(NESTED))
  {
    hide Residual, EveryMatchBeginsStatement, Bridged, Mask, Marks;
    PlainTextIsItsOwnMask(NESTED);
    forall j | 0 <= j < |NESTED|
      ensures ControlMarks(NESTED)[j] <==> 7 <= j < 13
    {
      NestedMarks(j);
    }
    NestedBridge(ControlMarks(NESTED));
    ResidueIff(NESTED);
    if EveryMatchBeginsStatement(Mask(NESTED)) {
      NoResidue(NESTED);
    }
  }

  // ----- the destructive marker can be erased

  const HIDDEN: string := "COMMIT/*" + DESTRUCTIVE_MARKER + "*/;"

  /** Text whose only masked region is one block comment. */
  lemma {:induction false} OneComment(s: string, a: nat, e: nat)
    requires a < |s| && BlockEnd(s, a) == Some(e)
    requires forall i :: 0 <= i < |s| ==> s[i] !in "$-'"
    requires forall i :: 0 <= i < |s| && i != a ==> BlockEnd(s, i).None?
    ensures Mask(s) == Pass(Block, s)
    ensures forall j :: 0 <= j < |s| ==> Mask(s)[j] == if a <= j < e then BlankChar(s[j]) else s[j]
  {
    NothingToMask(Dollar, s);
    forall j | 0 <= j < |s|
      ensures Marks(Block, s)[j] <==> a <= j < e
    {
      OnlyMatch(Block, s, a, e, j);
    }
    NothingToMask(Line, Pass(Block, s));
    NothingToMask(Quote, Pass(Block, s));
  }

  /** `COMMIT`, one comment, a semicolon. */
  ghost predicate CommentBeforeSemicolon(s: string) {
    && |s| == 30 && HasWord(s, 0, Head(Keyword.Commit))
    && s[6] == '/' && s[7] == '*' && s[27] == '*' && s[28] == '/' && s[29] == ';'
    && (forall y :: 8 <= y < 27 ==> s[y] == ':' || IsWord(s[y]))
    && (forall y :: 0 <= y < 6 ==> IsWord(s[y]))
  }

  lemma {:induction false} HiddenShape()
    ensures CommentBeforeSemicolon(HIDDEN) && HasAt(HIDDEN, 8, DESTRUCTIVE_MARKER)
  {
    var w := DESTRUCTIVE_MARKER;
    assert |w| == 19;
    assert forall x :: 0 <= x < 19 ==> w[x] == ':' || IsWord(w[x]);
    assert HIDDEN[8..27] == w;
    assert forall y :: 8 <= y < 27 ==> HIDDEN[y] == w[y - 8];
  }

  lemma {:induction false} HiddenMatch(s: string)
    requires CommentBeforeSemicolon(s)
    ensures ControlEnd(Mask(s), 0) == Some(|s|)
  {
    CloseAt(s, 8, 27);
    OneComment(s, 6, 29);
    var m := Mask(s);
    assert HasWord(m, 0, Head(Keyword.Commit));
    KeywordDecides(m, 0, Keyword.Commit, 6, 29);
  }

  lemma {:induction false} CloseAt(s: string, k: nat, q: nat)
    requires k <= q < |s| - 1 && s[q] == '*' && s[q + 1] == '/'
    requires forall y :: k <= y < q ==> s[y] != '*'
    ensures BlockClose(s, k) == Some(q + 2)
    decreases q - k
  {
    if k < q {
      CloseAt(s, k + 1, q);
    }
  }

  lemma {:induction false} NothingToMask(p: Pattern, s: string)
    requires p == Dollar || p == Line || p == Quote
    requires forall i :: 0 <= i < |s| ==> s[i] !in "$-'"
    ensures Pass(p, s) == s
  {
    MatchlessPassIsIdentity(p, s);
  }

  /**
   * The runner asks the stripped text whether it is destructive. A marker in a comment
   * between a keyword and its semicolon is gone by then: this file declares itself
   * destructive, and the text that is checked and executed does not.
   */
  lemma {:induction false} MarkerCanBeErased()
    ensures DeclaresDestructive(HIDDEN)
    ensures !DeclaresDestructive(Strip(HIDDEN))
  {
    HiddenShape();
    HiddenMatch(HIDDEN);
    forall j | 0 <= j < |HIDDEN|
      ensures ControlMarks(HIDDEN)[j]
    {
      WholeMatch(Mask(HIDDEN), j);
    }
    ErasedTextDeclaresNothing(HIDDEN);
  }

  lemma {:induction false} ErasedTextDeclaresNothing(sql: string)
    requires forall j :: 0 <= j < |sql| ==> ControlMarks(sql)[j]
    ensures !DeclaresDestructive(Strip(sql))
  {
    var c, n := ControlMarks(sql), |DESTRUCTIVE_MARKER|;
    MarkerAfterStrip(sql);
    assert n == 19;
    forall k: nat
      ensures !MarkerKeptAt(sql, k)
    {
      assert k < |sql| ==> c[k];
    }
  }

  lemma {:induction false} WholeMatch(m: string, j: nat)
    requires j < |m| && ControlEnd(m, 0) == Some(|m|)
    ensures Marks(Control, m)[j]
  {
    if !Marks(Control, m)[0] {
      UnmarkedMeansNoMatch(Control, m, 0, 0);
    }
    var a, e := SpanAround(Control, m, 0, 0);
    assert Marked(Control, m, 0, j);
  }

  // ----- line endings

  /** A line comment up to `e` at the front, and nothing else to mask. */
  ghost predicate CommentFirst(s: string, e: nat) {
    && 2 < e <= |s| && s[0] == '-' && s[1] == '-' && LineEnd(s, 0) == Some(e)
    && forall i :: 2 <= i < |s| ==> s[i] !in "$/-'"
  }

  lemma {:induction false} MaskedComment(s: string, e: nat)
    requires CommentFirst(s, e)
    ensures forall j :: 0 <= j < |s| ==> Mask(s)[j] == if j < e then BlankChar(s[j]) else s[j]
  {
    NothingBegins(Dollar, s);
    NothingBegins(Block, s);
    forall j | 0 <= j < |s|
      ensures Marks(Line, s)[j] <==> j < e
    {
      OnlyMatch(Line, s, 0, e, j);
    }
    NothingBegins(Quote, Pass(Line, s));
  }

  lemma {:induction false} NothingBegins(p: Pattern, s: string)
    requires p in {Dollar, Block, Quote} && forall i :: 0 <= i < |s| ==> s[i] !in "$/'"
    ensures Pass(p, s) == s
  {
    MatchlessPassIsIdentity(p, s);
  }

  /**
   * The same statement behind a comment, with a Unix and with an old Macintosh line
   * ending: one checksum, but only the first is seen and stripped, because a line
   * comment of the scanner ends at a line feed alone.
   */
  lemma {:induction false} CarriageReturnHidesControl(hash: string -> string)
    ensures MigrationChecksum(hash, "--x\rCOMMIT;") == MigrationChecksum(hash, "--x\nCOMMIT;")
    ensures Findings("--x\nCOMMIT;") != [] && Findings("--x\rCOMMIT;") == []
  {
    hide *;
    var unix, mac := "--x\nCOMMIT;", "--x\rCOMMIT;";
    assert Convert(unix, Cr) == mac by { ConvertsToMac(); }
    ChecksumIgnoresLineEndings(hash, unix, Cr);
    assert unix[4..10] == "COMMIT";
    CommitAfterComment(unix);
    CommentToEnd(mac);
  }

  /** `--x`, a newline, `COMMIT;`. */
  lemma {:induction false} CommitAfterComment(s: string)
    requires |s| == 11 && s[0] == '-' && s[1] == '-' && s[2] == 'x' && s[3] == '\n' && s[10] == ';'
    requires s[4..10] == "COMMIT"
    ensures Findings(s) != []
  {
    hide Mask;
    assert forall i :: 4 <= i < 10 ==> s[i] == "COMMIT"[i - 4];
    assert LineEnd(s, 0) == Some(3) by { assert LineClose(s, 3) == 3; }
    MaskedComment(s, 3);
    var m := Mask(s);
    assert m[3] == '\n' && HasWord(m, 4, Head(Keyword.Commit));
    KeywordDecides(m, 4, Keyword.Commit, 10, 10);
    FindingsEmptyIff(m, 0);
  }

  lemma {:induction false} ConvertOne(c: char, rest: string, e: LineEnding)
    ensures c != '\r' && c != '\n' ==> Convert([c] + rest, e) == [c] + Convert(rest, e)
    ensures c == '\n' ==> Convert([c] + rest, e) == Spelling(e) + Convert(rest, e)
  {
    assert ([c] + rest)[1..] == rest;
  }

  lemma {:induction false} PlainConverts(a: string, rest: string, e: LineEnding)
    requires '\r' !in a && '\n' !in a
    ensures Convert(a + rest, e) == a + Convert(rest, e)
  {
    hide Convert;
    if a == [] {
      assert a + rest == rest && a + Convert(rest, e) == Convert(rest, e);
    } else {
      assert a + rest == [a[0]] + (a[1..] + rest) && a == [a[0]] + a[1..];
      ConvertOne(a[0], a[1..] + rest, e);
      PlainConverts(a[1..], rest, e);
      assert a + Convert(rest, e) == [a[0]] + (a[1..] + Convert(rest, e));
    }
  }

  lemma {:induction false} NewlineConverts(a: string, b: string)
    requires '\r' !in a + b && '\n' !in a + b
    ensures Convert(a + (['\n'] + b), Cr) == a + (['\r'] + b)
  {
    hide Convert;
    PlainConverts(a, ['\n'] + b, Cr);
    ConvertOne('\n', b, Cr);
    PlainConverts(b, [], Cr);
    assert b + [] == b && Convert([], Cr) == [] by { ConvertNothing(); }
  }

  lemma {:induction false} ConvertNothing()
    ensures Convert([], Cr) == []
  {
  }

  lemma {:induction false} ConvertsToMac()
    ensures Convert("--x\nCOMMIT;", Cr) == "--x\rCOMMIT;"
  {
    hide *;
    NewlineConverts("--x", "COMMIT;");
    assert "--x\nCOMMIT;" == "--x" + (['\n'] + "COMMIT;");
    assert "--x\rCOMMIT;" == "--x" + (['\r'] + "COMMIT;");
  }

  lemma {:induction false} ClosesAtEnd(s: string, k: nat)
    requires k <= |s| && '\n' !in s
    ensures LineClose(s, k) == |s|
    decreases |s| - k
  {
    if k < |s| {
      ClosesAtEnd(s, k + 1);
    }
  }

  lemma {:induction false} CommentToEnd(s: string)
    requires |s| > 2 && s[0] == '-' && s[1] == '-' && '\n' !in s && forall i :: 2 <= i < |s| ==> s[i] !in "$/-'"
    ensures Findings(s) == []
  {
    ClosesAtEnd(s, 2);
    MaskedComment(s, |s|);
    FindingsEmptyIff(Mask(s), 0);
    forall j | 0 <= j < |s|
      ensures ControlEnd(Mask(s), j).None?
    {
      MatchBeginsWord(Mask(s), j);
    }
  }

  lemma {:induction false} MatchBeginsWord(s: string, i: nat)
    requires i < |s|
    ensures ControlEnd(s, i).Some? ==> IsWord(s[i])
  {
    if ControlEnd(s, i).Some? {
      ControlShape(s, i, ControlEnd(s, i).value);
    }
  }
}
