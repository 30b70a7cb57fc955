/**
 * The statements of a text, said of the masked text itself: what stands between two
 * semicolons and is not blank, and which of these spell transaction control.
 */
module StatementTexts {
  import opened Text
  import opened Characters
  import opened Scanner
  import opened Masking
  import opened Residue
  import opened SqlStatements
  import opened ControlPhrases

  /** From the first character that is not white space up to the semicolon, or the end of the text. */
  datatype Stretch = Stretch(start: nat, end: nat)

  ghost predicate BehindSemicolon(m: string, a: nat, i: nat) {
    a <= i <= |m| && (a == 0 || m[a - 1] == ';') && White(m[a..i])
  }

  ghost predicate IsStretch(m: string, st: Stretch) {
    && st.start < st.end <= |m| && !IsWhite(m[st.start])
    && (forall y :: st.start <= y < st.end ==> m[y] != ';') && (st.end < |m| ==> m[st.end] == ';')
    && exists a: nat :: BehindSemicolon(m, a, st.start)
  }

  /** The stretch is the phrase of `k` in any letter case, with white space behind it. */
  ghost predicate SpellsControl(t: string, k: Keyword) {
    exists f :: SpellsPhrase(f, WordOf(k)) && t == PhraseBody(f)
  }

  ghost predicate StmtIs(sql: string, m: string, st: Stretch, s: Stmt)
    requires |m| == |sql|
  {
    st.start < st.end <= |m| &&
      match s
      case Txn(k, terminated) => SpellsControl(m[st.start..st.end], k) && (terminated <==> st.end < |m|)
      case Work(text) =>
        text == sql[st.start..st.end] && forall k :: !SpellsControl(m[st.start..st.end], k)
  }

  // ----- phrases

  lemma {:induction false} PhraseIsSpelled(k: Keyword, m: string, i: nat, b: nat)
    requires i <= b <= |m| && IsPhrase(k, m, i, b)
    ensures SpellsControl(m[i..b], k)
  {
    hide KeywordEnd, PhraseBody, SpellsPhrase;
    SkippedIsWhite(m, KeywordEnd(k, m, i).value);
    var f := KeywordSpells(m, i, k, b);
  }

  lemma {:induction false} SpelledIsPhrase(k: Keyword, m: string, i: nat, b: nat)
    requires i <= b <= |m| && (b < |m| ==> m[b] == ';') && SpellsControl(m[i..b], k)
    ensures i < b && IsPhrase(k, m, i, b)
  {
    hide KeywordEnd, PhraseBody, Spells, White;
    var f :| SpellsPhrase(f, WordOf(k)) && m[i..b] == PhraseBody(f);
    PartsAt(m, i, f);
    SpelledKeyword(m, i, k, f);
    var p := i + |f.first| + |f.gap| + |f.second|;
    WhiteStretch(m, p, b);
    SkipTo(m, p, b);
  }

  lemma {:induction false} StmtAtIs(sql: string, m: string, i: nat, b: nat)
    requires i < b <= |m| == |sql| && (b < |m| ==> m[b] == ';')
    ensures StmtIs(sql, m, Stretch(i, b), StmtAt(sql, m, i, b))
  {
    hide IsPhrase, SpellsControl, PhraseAt;
    var s := StmtAt(sql, m, i, b);
    if s.Txn? {
      PhraseIsSpelled(s.keyword, m, i, b);
    } else {
      forall k
        ensures !SpellsControl(m[i..b], k)
      {
        if SpellsControl(m[i..b], k) {
          SpelledIsPhrase(k, m, i, b);
          PhraseDecides(sql, m, i, b, k);
        }
      }
    }
  }

  // ----- stretches

  lemma {:induction false} StretchHere(m: string, a: nat)
    requires a <= |m| && (a == 0 || m[a - 1] == ';') && SkipSpace(m, a) < SemicolonFrom(m, a)
    ensures IsStretch(m, Stretch(SkipSpace(m, a), SemicolonFrom(m, a)))
  {
    SkippedIsWhite(m, a);
    assert BehindSemicolon(m, a, SkipSpace(m, a));
  }

  lemma {:induction false} OnlyStretchHere(m: string, a: nat, st: Stretch)
    requires a <= |m| && IsStretch(m, st) && a <= st.start <= SemicolonFrom(m, a)
    ensures st == Stretch(SkipSpace(m, a), SemicolonFrom(m, a))
  {
    var b := SemicolonFrom(m, a);
    var c: nat :| BehindSemicolon(m, c, st.start);
    assert c <= a;
    WhiteStretch(m, c, st.start);
    CharacterClasses(m[st.start]);
    SkipTo(m, a, st.start);
  }

  ghost predicate StretchesFrom(m: string, a: nat, at: seq<Stretch>) {
    && (forall st :: st in at <==> IsStretch(m, st) && a <= st.start)
    && forall x, y :: 0 <= x < y < |at| ==> at[x].end < at[y].start
  }

  lemma {:induction false} StretchesCons(m: string, a: nat, more: seq<Stretch>)
    requires a <= |m| && (a == 0 || m[a - 1] == ';')
    requires var b := SemicolonFrom(m, a); if b < |m| then StretchesFrom(m, b + 1, more) else more == []
    ensures var b, i := SemicolonFrom(m, a), SkipSpace(m, a);
            StretchesFrom(m, a, (if i < b then [Stretch(i, b)] else []) + more)
  {
    hide IsStretch, SemicolonFrom, SkipSpace;
    var b, i := SemicolonFrom(m, a), SkipSpace(m, a);
    var at := (if i < b then [Stretch(i, b)] else []) + more;
    if i < b {
      StretchHere(m, a);
    }
    forall st | IsStretch(m, st) && a <= st.start
      ensures st in at
    {
      StretchWithin(m, st);
      if st.start <= b {
        OnlyStretchHere(m, a, st);
        assert at[0] == st;
      } else {
        assert st in more;
      }
    }
    assert forall x :: 0 <= x < |more| ==> more[x] in more;
  }

  lemma {:induction false} StretchWithin(m: string, st: Stretch)
    requires IsStretch(m, st)
    ensures st.start < st.end <= |m|
  {
  }

  lemma {:induction false} StmtsFromAre(sql: string, m: string, a: nat) returns (at: seq<Stretch>)
    requires a <= |m| == |sql| && (a == 0 || m[a - 1] == ';')
    ensures StretchesFrom(m, a, at) && |StmtsFrom(sql, m, a)| == |at|
    ensures forall k :: 0 <= k < |at| ==> StmtIs(sql, m, at[k], StmtsFrom(sql, m, a)[k])
    decreases |m| - a
  {
    hide StretchesFrom, StmtIs, StmtAt;
    var b, i := SemicolonFrom(m, a), SkipSpace(m, a);
    at := [];
    if b < |m| {
      at := StmtsFromAre(sql, m, b + 1);
    }
    StretchesCons(m, a, at);
    if i < b {
      StmtAtIs(sql, m, i, b);
      at := [Stretch(i, b)] + at;
    } else {
      assert [] + at == at;
    }
  }

  /**
   * The statements of a text are, in order, its stretches between semicolons of the masked
   * text. A stretch that spells one of the five phrases controls the transaction, and is
   * terminated exactly when a semicolon follows; any other is work, with its own text.
   */
  lemma {:induction false} StatementsAre(sql: string) returns (at: seq<Stretch>)
    ensures forall st :: st in at <==> IsStretch(Mask(sql), st)
    ensures forall x, y :: 0 <= x < y < |at| ==> at[x].end < at[y].start
    ensures |Statements(sql)| == |at|
    ensures forall k :: 0 <= k < |at| ==> StmtIs(sql, Mask(sql), at[k], Statements(sql)[k])
  {
    hide IsStretch, StmtIs, Mask, StmtsFrom;
    at := StmtsFromAre(sql, Mask(sql), 0);
  }
}
