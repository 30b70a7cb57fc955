/**
 * Transaction control against its spelling: which stretches of the masked text are found,
 * how they are reported, and that stripping blanks these and nothing else.
 */
module ControlPhrases {
  import opened Text
  import opened Characters
  import opened Scanner
  import opened Masking
  import opened Stripper
  import opened Residue

  // ----- the spelling

  /** `t` is the capitals `w` in any letter case. */
  ghost predicate Spells(t: string, w: string) {
    |t| == |w| && forall x :: 0 <= x < |t| ==> t[x] == w[x] || t[x] as int == w[x] as int + 32
  }

  /** A phrase, apart from its white space: one word, or one followed by `TRANSACTION`. */
  datatype Phrase = Phrase(first: string, gap: string, second: string, trail: string)

  /** The phrase without its semicolon. */
  function PhraseBody(p: Phrase): (t: string) {
    p.first + p.gap + p.second + p.trail
  }

  function PhraseText(p: Phrase): (t: string) {
    PhraseBody(p) + ";"
  }

  /** The word that the phrase begins with, in capitals. */
  ghost predicate SpellsPhrase(p: Phrase, w: string) {
    && Spells(p.first, w) && White(p.gap) && White(p.trail)
    && ((w in {"BEGIN", "COMMIT", "ROLLBACK"} && p.gap == [] && p.second == [])
        || (w in {"START", "END"} && p.gap != [] && Spells(p.second, "TRANSACTION")))
  }

  ghost predicate IsControl(t: string) {
    exists p, w :: SpellsPhrase(p, w) && t == PhraseText(p)
  }

  function WordOf(k: Keyword): (w: string) {
    match k
    case Begin => "BEGIN"
    case Commit => "COMMIT"
    case Rollback => "ROLLBACK"
    case StartTransaction => "START"
    case EndTransaction => "END"
  }

  // ----- the pattern matches the spelling

  lemma {:induction false} WordIff(s: string, i: nat, w: string)
    requires i <= |s| && forall x :: 0 <= x < |w| ==> 'A' <= w[x] <= 'Z'
    ensures HasWord(s, i, w) <==> i + |w| <= |s| && Spells(s[i..i + |w|], w)
  {
    if i + |w| <= |s| {
      var t := s[i..i + |w|];
      forall x | 0 <= x < |w|
        ensures Upper(s[i + x]) == w[x] <==> t[x] == w[x] || t[x] as int == w[x] as int + 32
      {
        assert t[x] == s[i + x];
        UpperIff(s[i + x], w[x]);
      }
      if Spells(t, w) {
        assert forall y :: i <= y < i + |w| ==> t[y - i] == s[y];
      }
      if HasWord(s, i, w) {
        forall x | 0 <= x < |w|
          ensures t[x] == w[x] || t[x] as int == w[x] as int + 32
        {
          assert Upper(s[i + x]) == w[i + x - i];
        }
      }
    }
  }

  lemma {:induction false} UpperIff(c: char, d: char)
    requires 'A' <= d <= 'Z'
    ensures Upper(c) == d <==> c == d || c as int == d as int + 32
  {
  }

  lemma {:induction false} WhiteStretch(s: string, a: nat, b: nat)
    requires a <= b <= |s|
    ensures White(s[a..b]) <==> forall y :: a <= y < b ==> IsSpace(s[y])
  {
    forall y | a <= y < b
      ensures s[a..b][y - a] == s[y] && (IsWhite(s[y]) <==> IsSpace(s[y]))
    {
      CharacterClasses(s[y]);
    }
    assert forall x :: 0 <= x < b - a ==> s[a..b][x] == s[a + x];
  }

  lemma {:induction false} KeywordIs(s: string, i: nat, k: Keyword, p: nat) returns (g: nat)
    requires i <= |s| && KeywordEnd(k, s, i) == Some(p)
    ensures i + |WordOf(k)| <= g <= p <= |s| && Spells(s[i..i + |WordOf(k)|], WordOf(k))
    ensures White(s[i + |WordOf(k)|..g])
    ensures if k.StartTransaction? || k.EndTransaction? then
              g > i + |WordOf(k)| && Spells(s[g..p], "TRANSACTION")
            else g == p == i + |WordOf(k)|
  {
    hide HasWord;
    var w := WordOf(k);
    assert Head(k) == w;
    WordIff(s, i, w);
    var n := i + |w|;
    if k.StartTransaction? || k.EndTransaction? {
      g := SkipSpace(s, n);
      WordIff(s, g, "TRANSACTION");
      WhiteStretch(s, n, g);
    } else {
      g := n;
    }
  }

  lemma {:induction false} KeywordKinds(k: Keyword)
    ensures Head(k) == WordOf(k)
    ensures k.StartTransaction? || k.EndTransaction? <==> WordOf(k) in {"START", "END"}
    ensures WordOf(k) in {"BEGIN", "COMMIT", "ROLLBACK"} <==> !(k.StartTransaction? || k.EndTransaction?)
  {
    var w := WordOf(k);
    assert "BEGIN"[0] == 'B' && "COMMIT"[0] == 'C' && "ROLLBACK"[0] == 'R' && "START"[0] == 'S' && "END"[0] == 'E';
    assert w[0] == (match k case Begin => 'B' case Commit => 'C' case Rollback => 'R' case StartTransaction => 'S'
                      case EndTransaction => 'E');
  }

  /** A keyword and the white space behind it are spelled as a phrase. */
  lemma {:induction false} KeywordSpells(s: string, i: nat, k: Keyword, b: nat) returns (f: Phrase)
    requires i <= |s| && KeywordEnd(k, s, i).Some? && KeywordEnd(k, s, i).value <= b <= |s|
    requires White(s[KeywordEnd(k, s, i).value..b])
    ensures i < b && SpellsPhrase(f, WordOf(k)) && s[i..b] == PhraseBody(f)
  {
    hide KeywordEnd, Spells, White, WordOf;
    var p := KeywordEnd(k, s, i).value;
    var g := KeywordIs(s, i, k, p);
    var n := i + |WordOf(k)|;
    KeywordKinds(k);
    f := Phrase(s[i..n], s[n..g], s[g..p], s[p..b]);
    FourParts(s, i, n, g, p, b);
  }

  lemma {:induction false} FourParts(s: string, i: nat, n: nat, g: nat, p: nat, b: nat)
    requires i <= n <= g <= p <= b <= |s|
    ensures s[i..b] == s[i..n] + s[n..g] + s[g..p] + s[p..b]
  {
    assert s[i..g] == s[i..n] + s[n..g];
    assert s[i..p] == s[i..g] + s[g..p];
    assert s[i..b] == s[i..p] + s[p..b];
  }

  /** What matches is spelled as a phrase. */
  lemma {:induction false} MatchSpells(s: string, i: nat, e: nat)
    requires i < |s| && ControlEnd(s, i) == Some(e)
    ensures i < e <= |s| && IsControl(s[i..e]) && (i == 0 || !IsWord(s[i - 1]))
  {
    hide KeywordEnd, PhraseAt, PhraseBody, SpellsPhrase;
    var k := PhraseAt(s, i).value;
    var p := KeywordEnd(k, s, i).value;
    SkippedIsWhite(s, p);
    var f := KeywordSpells(s, i, k, e - 1);
    assert s[i..e] == s[i..e - 1] + [s[e - 1]];
    assert SpellsPhrase(f, WordOf(k)) && s[i..e] == PhraseText(f);
  }

  lemma {:induction false} WordKeyword(w: string) returns (k: Keyword)
    requires w in {"BEGIN", "COMMIT", "ROLLBACK", "START", "END"}
    ensures WordOf(k) == w && Head(k) == w
    ensures k.StartTransaction? || k.EndTransaction? <==> w in {"START", "END"}
  {
    k := if w == "BEGIN" then Begin else if w == "COMMIT" then Commit else if w == "ROLLBACK" then Rollback
         else if w == "START" then StartTransaction else EndTransaction;
    assert "BEGIN"[0] == 'B' && "COMMIT"[0] == 'C' && "ROLLBACK"[0] == 'R' && "START"[0] == 'S' && "END"[0] == 'E';
  }

  lemma {:induction false} HasBoth(s: string, i: nat, u: string, v: string)
    requires HasAt(s, i, u + v)
    ensures HasAt(s, i, u) && HasAt(s, i + |u|, v)
  {
    var t, n := s[i..i + |u + v|], |u|;
    assert t[..n] == u && t[n..] == v;
    assert s[i..i + n] == t[..n] && s[i + n..i + n + |v|] == t[n..];
  }

  /** The parts of a phrase where it stands. */
  lemma {:induction false} PartsAt(s: string, i: nat, f: Phrase)
    requires HasAt(s, i, PhraseBody(f))
    ensures |PhraseBody(f)| == |f.first| + |f.gap| + |f.second| + |f.trail|
    ensures HasAt(s, i, f.first) && HasAt(s, i + |f.first|, f.gap)
    ensures HasAt(s, i + |f.first| + |f.gap|, f.second)
    ensures HasAt(s, i + |f.first| + |f.gap| + |f.second|, f.trail)
  {
    hide HasAt;
    HasBoth(s, i, f.first + f.gap + f.second, f.trail);
    HasBoth(s, i, f.first + f.gap, f.second);
    HasBoth(s, i, f.first, f.gap);
  }

  lemma {:induction false} TransactionSpelled(s: string, n: nat, gap: string, second: string)
    requires White(gap) && gap != [] && Spells(second, "TRANSACTION")
    requires HasAt(s, n, gap) && HasAt(s, n + |gap|, second)
    ensures TransactionWord(s, n) == Some(n + |gap| + |second|)
  {
    hide HasWord, SkipSpace, Spells;
    var g := n + |gap|;
    WordIff(s, g, "TRANSACTION");
    WhiteStretch(s, n, g);
    SecondIsNoSpace(second);
    assert s[g] == s[g..g + |second|][0];
    SkipTo(s, n, g);
  }

  lemma {:induction false} SpelledKeyword(s: string, i: nat, k: Keyword, f: Phrase)
    requires SpellsPhrase(f, WordOf(k)) && HasAt(s, i, PhraseBody(f))
    ensures KeywordEnd(k, s, i) == Some(i + |f.first| + |f.gap| + |f.second|)
  {
    hide HasWord, SkipSpace, PhraseBody, TransactionWord, White;
    var w := WordOf(k);
    PartsAt(s, i, f);
    WordIff(s, i, w);
    KeywordKinds(k);
    if k.StartTransaction? || k.EndTransaction? {
      TransactionSpelled(s, i + |w|, f.gap, f.second);
    }
  }

  lemma {:induction false} SecondIsNoSpace(t: string)
    requires Spells(t, "TRANSACTION")
    ensures |t| == |"TRANSACTION"| && !IsSpace(t[0])
  {
  }

  /** What is spelled as a phrase, and does not go on a word, matches. */
  lemma {:induction false} SpelledMatches(s: string, i: nat, e: nat)
    requires i < e <= |s| && IsControl(s[i..e]) && (i == 0 || !IsWord(s[i - 1]))
    ensures ControlEnd(s, i) == Some(e)
  {
    hide KeywordEnd, ControlEnd, PhraseText, SpellsPhrase;
    var f, w :| SpellsPhrase(f, w) && s[i..e] == PhraseText(f);
    PhraseIsMatch(s, i, f, w);
  }

  lemma {:induction false} PhraseIsMatch(s: string, i: nat, f: Phrase, w: string)
    requires SpellsPhrase(f, w) && HasAt(s, i, PhraseText(f)) && (i == 0 || !IsWord(s[i - 1]))
    ensures i < |s| && ControlEnd(s, i) == Some(i + |PhraseText(f)|)
  {
    hide KeywordEnd, ControlEnd, PhraseBody, Spells;
    HasBoth(s, i, PhraseBody(f), ";");
    PartsAt(s, i, f);
    var k := KeywordOfPhrase(f, w);
    SpelledKeyword(s, i, k, f);
    var p := i + |f.first| + |f.gap| + |f.second|;
    var q := p + |f.trail|;
    WhiteStretch(s, p, q);
    assert s[q] == s[q..q + 1][0] == ';';
    KeywordDecides(s, i, k, p, q);
  }

  lemma {:induction false} KeywordOfPhrase(f: Phrase, w: string) returns (k: Keyword)
    requires SpellsPhrase(f, w)
    ensures WordOf(k) == w && f.first != []
  {
    assert w in {"BEGIN", "COMMIT", "ROLLBACK", "START", "END"};
    k := WordKeyword(w);
  }

  // ----- every phrase is found

  /** Every character of a spelled word is a word character. */
  lemma {:induction false} WordAt(s: string, a: nat, b: nat, w: string)
    requires a <= b <= |s| && Spells(s[a..b], w) && forall x :: 0 <= x < |w| ==> 'A' <= w[x] <= 'Z'
    ensures forall y :: a <= y < b ==> IsWord(s[y]) && Upper(s[y]) == w[y - a]
  {
    SpelledIsWord(s[a..b], w);
    assert forall y :: a <= y < b ==> s[a..b][y - a] == s[y];
  }

  /** A word begins in a phrase only where its first or its second word does. */
  lemma {:induction false} WordsOfPhrase(s: string, i: nat, e: nat, j: nat)
    requires i < j < e <= |s| && ControlEnd(s, i) == Some(e) && IsWord(s[j]) && !IsWord(s[j - 1])
    ensures Upper(s[j]) == 'T'
  {
    hide KeywordEnd, PhraseAt, Spells;
    var k := PhraseAt(s, i).value;
    var p := KeywordEnd(k, s, i).value;
    var g := KeywordIs(s, i, k, p);
    var n := i + |WordOf(k)|;
    WhiteStretch(s, n, g);
    WordAt(s, i, n, WordOf(k));
    if n < g {
      WordAt(s, g, p, "TRANSACTION");
    }
  }

  lemma {:induction false} SpelledIsWord(t: string, w: string)
    requires Spells(t, w) && forall x :: 0 <= x < |w| ==> 'A' <= w[x] <= 'Z'
    ensures forall x :: 0 <= x < |t| ==> IsWord(t[x]) && Upper(t[x]) == w[x]
  {
  }

  lemma {:induction false} FirstWord(f: Phrase, w: string)
    requires SpellsPhrase(f, w)
    ensures w in {"BEGIN", "COMMIT", "ROLLBACK", "START", "END"} && |f.first| == |w| > 0
    ensures PhraseText(f) != [] && PhraseText(f)[0] == f.first[0]
  {
  }

  lemma {:induction false} PhraseBegins(t: string)
    requires IsControl(t)
    ensures t != [] && IsWord(t[0]) && Upper(t[0]) in {'B', 'C', 'R', 'S', 'E'}
  {
    hide PhraseText, Spells;
    var f, w :| SpellsPhrase(f, w) && t == PhraseText(f);
    FirstWord(f, w);
    SpelledIsWord(f.first, w);
  }

  /** No earlier match reaches a phrase that begins at `i`. */
  lemma {:induction false} SpanStartsHere(m: string, span: Span, i: nat)
    requires span.start <= i < span.end <= |m| && ControlEnd(m, span.start) == Some(span.end)
    requires Upper(m[i]) != 'T' && IsWord(m[i]) && (i == 0 || !IsWord(m[i - 1]))
    ensures span.start == i
  {
    hide ControlEnd, Upper, IsWord;
    if span.start < i {
      WordsOfPhrase(m, span.start, span.end, i);
    }
  }

  lemma {:induction false} MatchIsSpan(m: string, i: nat, e: nat)
    requires i < e <= |m| && ControlEnd(m, i) == Some(e) && Upper(m[i]) != 'T' && IsWord(m[i])
    requires i == 0 || !IsWord(m[i - 1])
    ensures Span(i, e) in SpansIn(m, 0)
  {
    hide ControlEnd, SpansIn, Upper, IsWord;
    FindingsAreTheMatches(m, 0);
    var spans := SpansIn(m, 0);
    if !Marked(Control, m, 0, i) {
      UnmarkedMeansNoMatch(Control, m, 0, i);
    }
    var k :| 0 <= k < |spans| && spans[k].start <= i < spans[k].end;
    SpanStartsHere(m, spans[k], i);
    assert spans[k] == Span(i, e);
  }

  lemma {:induction false} SpanIsMatch(m: string, span: Span)
    requires span in SpansIn(m, 0)
    ensures span.start < span.end <= |m| && ControlEnd(m, span.start) == Some(span.end)
  {
    hide ControlEnd, SpansIn;
    FindingsAreTheMatches(m, 0);
  }

  /**
   * The matches in a masked text are exactly its stretches that are spelled as one of the
   * five phrases in any letter case, with white space and a semicolon, and do not go on a word.
   */
  lemma {:induction false} FoundIff(m: string, i: nat, e: nat)
    ensures Span(i, e) in SpansIn(m, 0)
       <==> i < e <= |m| && IsControl(m[i..e]) && (i == 0 || !GoesOnWord(m[i - 1]))
  {
    hide ControlEnd, IsControl, SpansIn;
    if 0 < i <= |m| {
      CharacterClasses(m[i - 1]);
    }
    if Span(i, e) in SpansIn(m, 0) {
      SpanIsMatch(m, Span(i, e));
      MatchSpells(m, i, e);
    }
    if i < e <= |m| && IsControl(m[i..e]) && (i == 0 || !GoesOnWord(m[i - 1])) {
      SpelledMatches(m, i, e);
      PhraseBegins(m[i..e]);
      assert m[i..e][0] == m[i];
      MatchIsSpan(m, i, e);
    }
  }

  // ----- how it is reported

  lemma {:induction false} CollapseWord(t: string, rest: string, after: bool)
    requires t != [] && forall x :: 0 <= x < |t| ==> !IsSpace(t[x])
    ensures Collapse(t + rest, after) == t + Collapse(rest, false)
    decreases |t|
  {
    assert (t + rest)[1..] == t[1..] + rest;
    if |t| > 1 {
      CollapseWord(t[1..], rest, false);
    } else {
      assert t[1..] + rest == rest;
    }
  }

  lemma {:induction false} CollapseWhite(t: string, rest: string, after: bool)
    requires White(t)
    ensures Collapse(t + rest, after) == (if t == [] || after then [] else " ") + Collapse(rest, after || t != [])
    decreases |t|
  {
    if t != [] {
      CharacterClasses(t[0]);
    }
    if t == [] {
      assert t + rest == rest;
    } else {
      assert (t + rest)[1..] == t[1..] + rest;
      CollapseWhite(t[1..], rest, true);
    }
  }

  function Single(t: string): (s: string) {
    if t == [] then "" else " "
  }

  lemma {:induction false} CollapseEnd(trail: string)
    requires White(trail)
    ensures Collapse(trail + ";", false) == Single(trail) + ";"
  {
    hide Collapse;
    CollapseWhite(trail, ";", false);
    NothingCollapses();
    CollapseWord(";", [], trail != []);
    assert ";" + [] == ";";
    assert [] + ";" == ";";
  }

  lemma {:induction false} OneWord(f: Phrase, w: string)
    requires SpellsPhrase(f, w) && f.second == []
    ensures f.gap == []
  {
  }

  lemma {:induction false} CollapsePhrase(f: Phrase, w: string)
    requires SpellsPhrase(f, w)
    ensures Collapse(PhraseText(f), false)
         == f.first + (if f.second == [] then "" else " " + f.second) + (Single(f.trail) + ";")
  {
    hide Collapse, Spells, Single;
    var end := f.trail + ";";
    CollapseEnd(f.trail);
    SpelledNoSpace(f.first, w);
    if f.second == [] {
      OneWord(f, w);
      assert f.first + f.gap + f.second == f.first;
      assert PhraseText(f) == f.first + end;
      CollapseWord(f.first, end, false);
      assert f.first + "" == f.first;
    } else {
      SpelledNoSpace(f.second, "TRANSACTION");
      var rest := f.second + end;
      assert PhraseText(f) == f.first + (f.gap + rest);
      CollapseWord(f.first, f.gap + rest, false);
      CollapseWhite(f.gap, rest, false);
      CollapseWord(f.second, end, true);
      var last := Single(f.trail) + ";";
      assert f.first + (" " + (f.second + last)) == f.first + (" " + f.second) + last;
    }
  }

  lemma {:induction false} UpperBlanks(t: string)
    ensures UpperCase(Single(t) + ";") == Single(t) + ";" && UpperCase("") == "" && UpperCase(" ") == " "
  {
  }

  /** White space collapsed to one blank, the words in capitals. */
  lemma {:induction false} ReportedIs(f: Phrase, w: string)
    requires SpellsPhrase(f, w)
    ensures Reported(PhraseText(f)) == w + (if f.second == [] then "" else " TRANSACTION") + Single(f.trail) + ";"
  {
    hide Collapse, Spells, Single, UpperCase, Trim, PhraseText;
    var second, last := if f.second == [] then "" else " " + f.second, Single(f.trail) + ";";
    var c := f.first + second + last;
    CollapsePhrase(f, w);
    SpelledNoSpace(f.first, w);
    NothingCollapses();
    assert c[0] == f.first[0] && c[|c| - 1] == ';';
    TrimNothing(c);
    UpperSpelled(f.first, w);
    UpperCaseBoth(f.first, second);
    UpperCaseBoth(f.first + second, last);
    UpperBlanks(f.trail);
    if f.second != [] {
      UpperSpelled(f.second, "TRANSACTION");
      UpperCaseBoth(" ", f.second);
      assert " " + "TRANSACTION" == " TRANSACTION";
    }
    var middle := if f.second == [] then "" else " TRANSACTION";
    assert w + middle + last == w + middle + Single(f.trail) + ";";
  }

  lemma {:induction false} NothingCollapses()
    ensures Collapse([], false) == [] && !IsSpace(';')
  {
  }

  lemma {:induction false} SpelledNoSpace(t: string, w: string)
    requires Spells(t, w) && w in {"BEGIN", "COMMIT", "ROLLBACK", "START", "END", "TRANSACTION"}
    ensures t != [] && forall x :: 0 <= x < |t| ==> !IsSpace(t[x])
  {
    SpelledIsWord(t, w);
  }

  lemma {:induction false} UpperSpelled(t: string, w: string)
    requires Spells(t, w) && w in {"BEGIN", "COMMIT", "ROLLBACK", "START", "END", "TRANSACTION"}
    ensures UpperCase(t) == w
  {
    SpelledIsWord(t, w);
  }

  lemma {:induction false} UpperCaseBoth(a: string, b: string)
    ensures UpperCase(a + b) == UpperCase(a) + UpperCase(b)
  {
  }

  lemma {:induction false} TrimNothing(c: string)
    requires c != [] && !IsSpace(c[0]) && !IsSpace(c[|c| - 1])
    ensures Trim(c) == c
  {
  }

  /** Counting newlines is splitting what comes before into lines. */
  lemma {:induction false} LinesBefore(s: string, k: nat)
    requires k <= |s|
    ensures 1 + NewlinesBefore(s, k) == |Split(s[..k], '\n')|
    decreases k
  {
    if k > 0 {
      LinesBefore(s, k - 1);
      assert s[..k] == s[..k - 1] + [s[k - 1]];
      SplitLast(s[..k - 1], s[k - 1]);
    }
  }

  lemma {:induction false} SplitLast(s: string, c: char)
    ensures |Split(s + [c], '\n')| == |Split(s, '\n')| + if c == '\n' then 1 else 0
  {
    if s == [] {
      assert s + [c] == [c] && [c][1..] == [];
    } else {
      assert (s + [c])[1..] == s[1..] + [c];
      SplitLast(s[1..], c);
    }
  }

  /** What is found for a stretch: the line it begins on, counted from 1, and its words in capitals. */
  ghost predicate FoundAs(sql: string, span: Span, found: Finding) {
    && span.start <= span.end <= |sql|
    && exists f, w ::
         && SpellsPhrase(f, w) && Mask(sql)[span.start..span.end] == PhraseText(f)
         && found == Finding(|Split(sql[..span.start], '\n')|,
                             w + (if f.second == [] then "" else " TRANSACTION") + Single(f.trail) + ";")
  }

  lemma {:induction false} SpanIsFound(sql: string, span: Span)
    requires span in SpansIn(Mask(sql), 0)
    ensures span.start < span.end <= |sql|
    ensures FoundAs(sql, span,
                    Finding(1 + NewlinesBefore(Mask(sql), span.start), Reported(Mask(sql)[span.start..span.end])))
  {
    hide ControlEnd, SpansIn, Mask, SpellsPhrase, PhraseText, Reported, NewlinesBefore, Split;
    var m, a, e := Mask(sql), span.start, span.end;
    SpanIsMatch(m, span);
    MatchSpells(m, a, e);
    var f, w :| SpellsPhrase(f, w) && m[a..e] == PhraseText(f);
    ReportedIs(f, w);
    MaskKeepsLineNumbers(sql, a);
    LinesBefore(sql, a);
  }

  /**
   * One finding for each such stretch, in order. Stripping turns these stretches into blanks,
   * keeping newlines, and keeps every other character.
   */
  lemma {:induction false} StripsThePhrases(sql: string)
    ensures var spans := SpansIn(Mask(sql), 0);
            |Findings(sql)| == |spans| && forall k :: 0 <= k < |spans| ==> FoundAs(sql, spans[k], Findings(sql)[k])
    ensures forall j :: 0 <= j < |sql| ==>
              Strip(sql)[j] == if InSome(SpansIn(Mask(sql), 0), j) && sql[j] != '\n' then ' ' else sql[j]
  {
    hide ControlEnd, SpansIn, Mask, FoundAs, InSome, Reported, NewlinesBefore;
    var m, spans := Mask(sql), SpansIn(Mask(sql), 0);
    FindingsAreTheMatches(m, 0);
    forall k | 0 <= k < |spans|
      ensures FoundAs(sql, spans[k], Findings(sql)[k])
    {
      SpanIsFound(sql, spans[k]);
    }
  }
}
