/** When the body that the runner executes is harmless to the runner's transaction, decided on the text. */
module BodySafety {
  import opened Text
  import opened Scanner
  import opened Masking
  import opened Stripper
  import opened Residue
  import opened SqlStatements
  import opened Database
  import opened Harmless
  import Counterexamples

  /** The last statement ends the transaction. */
  predicate LastEnds(ss: seq<Stmt>) {
    ss != [] && ss[|ss| - 1].Txn? && !Opens(ss[|ss| - 1].keyword)
  }

  /** The database takes no statement for transaction control that the scanner takes for work. */
  ghost predicate PlainTexts(means: Reading, ss: seq<Stmt>) {
    forall st :: st in ss && st.Work? ==> means(st.text).None?
  }

  /** Only the last statement of a text can lack its semicolon. */
  lemma {:induction false} UnterminatedIsLast(sql: string, m: string, a: nat, n: nat)
    requires a <= |m| == |sql| && n + 1 < |StmtsFrom(sql, m, a)|
    ensures StmtsFrom(sql, m, a)[n].Txn? ==> StmtsFrom(sql, m, a)[n].terminated
    decreases |m| - a
  {
    hide StmtsFrom;
    var b, i := SemicolonFrom(m, a), SkipSpace(m, a);
    Unfold(sql, m, a, b, i);
    var here := if i < b then 1 else 0;
    if here <= n {
      UnterminatedIsLast(sql, m, b + 1, n - here);
    }
  }

  lemma {:induction false} DroppedControl(ss: seq<Stmt>)
    ensures forall st :: st in WithoutTerminatedControl(ss) <==> st in ss && !IsTerminatedControl(st)
  {
    if ss != [] {
      DroppedControl(ss[1..]);
      assert ss == [ss[0]] + ss[1..];
    }
  }

  /** Statements of which only the last can control the transaction. */
  lemma {:induction false} OnlyLastControls(means: Reading, ss: seq<Stmt>)
    requires PlainTexts(means, ss) && forall n :: 0 <= n < |ss| - 1 ==> ss[n].Work?
    ensures IsHarmless(Acts(means, ss)) <==> !(LastEnds(ss) && WorkTexts(Acts(means, ss)) != [])
  {
    var acts := Acts(means, ss);
    if ss != [] {
      var n := |ss| - 1;
      assert forall j :: 0 <= j < n ==> acts[..n][j] == Does(ss[j].text) by {
        assert forall j :: 0 <= j < n ==> ss[j] in ss;
      }
      NothingEndsIsHarmless(acts[..n]);
      PendingIffWork(acts[..n]);
      assert ss[n] in ss;
    }
  }

  /**
   * A text without residue is harmless to the runner unless its last statement ends the
   * transaction and work stands before it, provided no text is control unseen.
   */
  lemma {:induction false} ResidueFreeBody(means: Reading, sql: string)
    requires Findings(sql) == [] && PlainTexts(means, Statements(sql))
    ensures IsHarmless(Asks(means, sql)) <==> !(LastEnds(Statements(sql)) && WorkTexts(Asks(means, sql)) != [])
  {
    var ss := Statements(sql);
    NoFindingsNoControl(sql);
    hide Statements, IsHarmless, LastEnds;
    forall n | 0 <= n < |ss| - 1
      ensures ss[n].Work?
    {
      assert ss[n] in ss;
      if ss[n].Txn? {
        LastIsUnterminated(sql, n);
      }
    }
    OnlyLastControls(means, ss);
  }

  lemma {:induction false} LastIsUnterminated(sql: string, n: nat)
    requires n < |Statements(sql)| && Statements(sql)[n].Txn? && !Statements(sql)[n].terminated
    ensures n + 1 == |Statements(sql)|
  {
    hide Mask, StmtsFrom;
    if n + 1 < |Statements(sql)| {
      UnterminatedIsLast(sql, Mask(sql), 0, n);
    }
  }

  /**
   * What the stripper guarantees the runner. If every match begins a statement, the
   * executed body is the raw file without its terminated control; and unless a text is
   * control unseen, it is harmless exactly when the raw file does not end, after some
   * work, in a statement without semicolon that ends the transaction.
   */
  lemma {:induction false} StrippedBodyIsHarmless(means: Reading, raw: string)
    requires EveryMatchBeginsStatement(Mask(raw))
    ensures Asks(means, Strip(raw)) == Acts(means, WithoutTerminatedControl(Statements(raw)))
    ensures PlainTexts(means, Statements(raw)) ==>
              (IsHarmless(Asks(means, Strip(raw))) <==>
                 !(LastEnds(Statements(raw)) && !IsTerminatedControl(Statements(raw)[|Statements(raw)| - 1])
                   && WorkTexts(Asks(means, Strip(raw))) != []))
  {
    StripPreservesMeaning(raw);
    hide Mask, Statements, Strip, IsHarmless, LastEnds, EveryMatchBeginsStatement;
    var ss := Statements(raw);
    var kept := WithoutTerminatedControl(ss);
    DroppedControl(ss);
    if PlainTexts(means, ss) {
      forall n | 0 <= n < |ss| && ss[n].Txn? && !ss[n].terminated
        ensures n + 1 == |ss|
      {
        LastIsUnterminated(raw, n);
      }
      KeptLast(ss);
      OnlyLastControls(means, kept);
    }
  }

  /** What stripping keeps of statements of which only the last can lack its semicolon. */
  lemma {:induction false} KeptLast(ss: seq<Stmt>)
    requires forall n :: 0 <= n < |ss| && ss[n].Txn? && !ss[n].terminated ==> n + 1 == |ss|
    ensures var kept := WithoutTerminatedControl(ss);
            && (forall n :: 0 <= n < |kept| - 1 ==> kept[n].Work?)
            && (LastEnds(kept) <==> LastEnds(ss) && !IsTerminatedControl(ss[|ss| - 1]))
  {
    var kept := WithoutTerminatedControl(ss);
    if ss != [] {
      assert forall n :: 0 <= n < |ss| - 1 ==> ss[1..][n] == ss[n + 1];
      KeptLast(ss[1..]);
      DroppedControl(ss[1..]);
      if |ss| > 1 {
        assert ss[1..][|ss| - 2] == ss[|ss| - 1];
        if !IsTerminatedControl(ss[|ss| - 1]) {
          assert ss[1..][|ss| - 2] in WithoutTerminatedControl(ss[1..]);
        }
      }
    }
  }

  // ----- a residue-free body that still ends the transaction

  const TRAILING: string := "A; COMMIT"

  lemma {:induction false} TrailingHasNoMatch(i: nat)
    requires i < |TRAILING|
    ensures ControlEnd(TRAILING, i) == None
  {
    if i == 3 {
      assert KeywordEnd(Keyword.Commit, TRAILING, 3) == Some(9);
      KeywordDecides(TRAILING, 3, Keyword.Commit, 9, 9);
    } else if i == 0 {
      forall k: Keyword { NoKeywordAt(TRAILING, 0, k); }
    } else {
      Counterexamples.NoControlAt(TRAILING, i);
    }
  }

  lemma {:induction false} NoKeywordAt(s: string, i: nat, k: Keyword)
    requires i < |s| && s[i] == 'A'
    ensures KeywordEnd(k, s, i) == None
  {
    assert Head(k)[0] != 'A';
  }

  /**
   * The residue is empty, as the repository's tests require, and the body that the
   * runner executes still commits: the last statement needs no semicolon to run.
   */
  lemma {:induction false} TrailingControlSurvives()
    ensures Residual(TRAILING) == []
    ensures Strip(TRAILING) == TRAILING
    ensures Statements(TRAILING) == [Work("A"), Txn(Keyword.Commit, false)]
  {
    hide ControlEnd;
    Counterexamples.PlainTextIsItsOwnMask(TRAILING);
    forall i | 0 <= i < |TRAILING|
      ensures ControlEnd(TRAILING, i).None?
    {
      TrailingHasNoMatch(i);
    }
    assert EveryMatchBeginsStatement(TRAILING);
    NoResidue(TRAILING);
    forall j | 0 <= j < |TRAILING|
      ensures !Marks(Control, TRAILING)[j]
    {
      NoMatchNoMarks(Control, TRAILING, j);
    }
    assert BlankAt(TRAILING, Marks(Control, TRAILING)) == TRAILING;
    TrailingStatements();
  }

  lemma {:induction false} TrailingStatements()
    ensures StmtsFrom(TRAILING, TRAILING, 0) == [Work("A"), Txn(Keyword.Commit, false)]
  {
    hide StmtsFrom, StmtAt;
    var s := TRAILING;
    SemicolonTo(s, 0, 1);
    SkipTo(s, 0, 0);
    SemicolonTo(s, 2, 9);
    SkipTo(s, 2, 3);
    Unfold(s, s, 0, 1, 0);
    Unfold(s, s, 2, 9, 3);
    assert KeywordEnd(Keyword.Commit, s, 3) == Some(9);
    SkipTo(s, 9, 9);
    PhraseDecides(s, s, 3, 9, Keyword.Commit);
    WorkA(s);
  }

  lemma {:induction false} WorkA(s: string)
    requires |s| > 1 && s[0] == 'A'
    ensures StmtAt(s, s, 0, 1) == Work(['A'])
  {
    forall k: Keyword { NoKeywordAt(s, 0, k); }
    assert s[0..1] == ['A'];
  }

  // ----- a control statement that the pattern does not know

  const HIDDEN_END: string := "A;END;B;"

  lemma {:induction false} HiddenEndHasNoMatch(i: nat)
    requires i < |HIDDEN_END|
    ensures ControlEnd(HIDDEN_END, i) == None
  {
    if i in {0, 2, 6} {
      assert HasAt(HIDDEN_END, 2, "END;") && HasAt(HIDDEN_END, 6, "B;");
      forall k: Keyword { NoPhraseIn(HIDDEN_END, i, k); }
    } else {
      Counterexamples.NoControlAt(HIDDEN_END, i);
    }
  }

  /** `END` is a phrase of the pattern only before `TRANSACTION`. */
  lemma {:induction false} NoPhraseIn(s: string, i: nat, k: Keyword)
    requires i < |s| && (s[i] == 'A' || HasAt(s, i, "B;") || HasAt(s, i, "END;"))
    ensures KeywordEnd(k, s, i) == None
  {
    assert Head(k)[0] != 'A';
    if HasAt(s, i, "B;") {
      assert s[i + 1] == s[i..i + 2][1] && s[i] == s[i..i + 2][0];
    }
    if HasAt(s, i, "END;") {
      assert s[i + 1] == s[i..i + 4][1] && s[i] == s[i..i + 4][0] && s[i + 3] == s[i..i + 4][3];
      SkipTo(s, i + 3, i + 3);
    }
  }

  /**
   * `END` ends the transaction in PostgreSQL, and the pattern does not know it: there is no
   * residue, every match begins a statement, stripping changes nothing, and where the
   * database reads `END` so, the body is not harmless.
   */
  lemma {:induction false} HiddenEndIsNotHarmless(means: Reading)
    requires means("A") == None && means("END") == Some(EndTransaction)
    ensures Residual(HIDDEN_END) == [] && EveryMatchBeginsStatement(Mask(HIDDEN_END)) && Strip(HIDDEN_END) == HIDDEN_END
    ensures Statements(HIDDEN_END) == [Work("A"), Work("END"), Work("B")]
    ensures Asks(means, HIDDEN_END)[..2] == [Does("A"), Controls(EndTransaction)]
    ensures PhaseOf(Asks(means, HIDDEN_END)[..1]).Pending? && !IsHarmless(Asks(means, HIDDEN_END))
  {
    HiddenEndText();
    hide Statements, Residual, EveryMatchBeginsStatement, Mask, Strip;
    var acts := Asks(means, HIDDEN_END);
    assert acts[..0] == [] && acts[..1][..0] == [] && acts[..2][..1] == acts[..1];
    PhaseNext(acts, 0);
    PhaseNext(acts, 1);
    BrokenStays(acts, 2);
  }

  lemma {:induction false} HiddenEndText()
    ensures Residual(HIDDEN_END) == [] && EveryMatchBeginsStatement(Mask(HIDDEN_END)) && Strip(HIDDEN_END) == HIDDEN_END
    ensures Statements(HIDDEN_END) == [Work("A"), Work("END"), Work("B")]
  {
    hide ControlEnd;
    Counterexamples.PlainTextIsItsOwnMask(HIDDEN_END);
    forall i | 0 <= i < |HIDDEN_END|
      ensures ControlEnd(HIDDEN_END, i).None?
    {
      HiddenEndHasNoMatch(i);
    }
    assert EveryMatchBeginsStatement(HIDDEN_END);
    NoResidue(HIDDEN_END);
    forall j | 0 <= j < |HIDDEN_END|
      ensures !Marks(Control, HIDDEN_END)[j]
    {
      NoMatchNoMarks(Control, HIDDEN_END, j);
    }
    assert BlankAt(HIDDEN_END, Marks(Control, HIDDEN_END)) == HIDDEN_END;
    HiddenEndStatements();
  }

  lemma {:induction false} HiddenEndStatements()
    ensures StmtsFrom(HIDDEN_END, HIDDEN_END, 0) == [Work("A"), Work("END"), Work("B")]
  {
    hide StmtsFrom, StmtAt;
    var s := HIDDEN_END;
    assert HasAt(s, 2, "END;") && HasAt(s, 6, "B;");
    forall k: Keyword { NoPhraseIn(s, 0, k); }
    forall k: Keyword { NoPhraseIn(s, 2, k); }
    forall k: Keyword { NoPhraseIn(s, 6, k); }
    WorkPiece(s, 0, 1);
    WorkPiece(s, 2, 5);
    WorkPiece(s, 6, 7);
    SemicolonTo(s, 8, 8);
    SkipTo(s, 8, 8);
    Unfold(s, s, 8, 8, 8);
    assert s[0..1] == "A" && s[2..5] == "END" && s[6..7] == "B";
  }

  /** One statement between two semicolons that begins with no phrase. */
  lemma {:induction false} WorkPiece(s: string, a: nat, b: nat)
    requires a < b < |s| && s[b] == ';' && !IsSpace(s[a])
    requires forall y :: a <= y < b ==> s[y] != ';'
    requires forall k: Keyword :: KeywordEnd(k, s, a) == None
    ensures StmtsFrom(s, s, a) == [Work(s[a..b])] + StmtsFrom(s, s, b + 1)
  {
    hide StmtsFrom, KeywordEnd;
    SemicolonTo(s, a, b);
    SkipTo(s, a, a);
    Unfold(s, s, a, b, a);
  }
}
