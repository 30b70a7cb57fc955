/** The character classes of the regular expressions, character by character. */
module Characters {
  import opened Text

  /** Letters, digits and the underscore. */
  predicate GoesOnWord(c: char) {
    (c == '_') || ('0' <= c && c <= '9') || ('A' <= c && c <= 'Z') || ('a' <= c && c <= 'z')
  }

  /** White space and line terminators, as ECMA-262 lists them. */
  predicate IsWhite(c: char) {
    c in {'\t', '\n', '\U{000B}', '\U{000C}', '\r', ' ', '\U{00A0}', '\U{1680}', '\U{2000}', '\U{2001}', '\U{2002}',
          '\U{2003}', '\U{2004}', '\U{2005}', '\U{2006}', '\U{2007}', '\U{2008}', '\U{2009}', '\U{200A}',
          '\U{2028}', '\U{2029}', '\U{202F}', '\U{205F}', '\U{3000}', '\U{FEFF}'}
  }

  lemma {:induction false} CharacterClasses(c: char)
    ensures IsSpace(c) <==> IsWhite(c)
    ensures IsWord(c) <==> GoesOnWord(c)
  {
    assert '\U{2000}' <= c <= '\U{200A}' ==> c as int - 0x2000 in {0, 1, 2, 3, 4, 5, 6, 7, 8, 9, 10};
  }

  ghost predicate White(s: string) {
    forall x :: 0 <= x < |s| ==> IsWhite(s[x])
  }

  /** Without white space at either end, and not empty. */
  ghost predicate Trimmed(s: string) {
    s != "" && !IsWhite(s[0]) && !IsWhite(s[|s| - 1])
  }

  lemma {:induction false} TrimmedEndIs(s: string, e: nat, k: nat)
    requires e <= k <= |s| && (e > 0 ==> !IsWhite(s[e - 1])) && forall x :: e <= x < k ==> IsWhite(s[x])
    ensures TrimmedEnd(s, k) == e
    decreases k
  {
    if k > 0 {
      CharacterClasses(s[k - 1]);
      if e < k {
        TrimmedEndIs(s, e, k - 1);
      }
    }
  }

  lemma {:induction false} SkipWhite(s: string, i: nat, q: nat)
    requires i <= q <= |s| && (forall x :: i <= x < q ==> IsWhite(s[x])) && (q < |s| ==> !IsWhite(s[q]))
    ensures SkipSpace(s, i) == q
    decreases q - i
  {
    if i < |s| {
      CharacterClasses(s[i]);
    }
    if i < q {
      SkipWhite(s, i + 1, q);
    }
  }

  /** Trimming takes the white space around a text away. */
  lemma {:induction false} TrimIs(before: string, s: string, after: string)
    requires White(before) && White(after) && (s == "" || Trimmed(s))
    ensures Trim(before + s + after) == s
  {
    var t, a, e := before + s + after, |before|, |before| + |s|;
    assert forall x :: 0 <= x < a ==> t[x] == before[x];
    assert forall x :: e <= x < |t| ==> t[x] == after[x - e];
    if s == "" {
      SkipWhite(t, 0, |t|);
      TrimmedEndIs(t, 0, |t|);
    } else {
      assert t[a] == s[0] && t[e - 1] == s[|s| - 1];
      SkipWhite(t, 0, a);
      TrimmedEndIs(t, e, |t|);
      assert t[a..e] == s;
    }
  }

  lemma {:induction false} SkippedIsWhite(s: string, i: nat)
    requires i <= |s|
    ensures White(s[i..SkipSpace(s, i)]) && (SkipSpace(s, i) < |s| ==> !IsWhite(s[SkipSpace(s, i)]))
  {
    forall x | 0 <= x < |s|
      ensures IsWhite(s[x]) <==> IsSpace(s[x])
    {
      CharacterClasses(s[x]);
    }
  }

  lemma {:induction false} EndTrims(s: string, k: nat)
    requires k <= |s|
    ensures var e := TrimmedEnd(s, k);
            (e > 0 ==> !IsWhite(s[e - 1])) && forall x :: e <= x < k ==> IsWhite(s[x])
    decreases k
  {
    if k > 0 {
      CharacterClasses(s[k - 1]);
      EndTrims(s, k - 1);
    }
  }

  /** A text that begins with no white space is trimmed at its end only. */
  lemma {:induction false} TrimsAtEnd(s: string)
    requires s != "" && !IsWhite(s[0])
    ensures Trimmed(Trim(s)) && |Trim(s)| <= |s| && s == Trim(s) + s[|Trim(s)|..] && White(s[|Trim(s)|..])
  {
    SkipWhite(s, 0, 0);
    EndTrims(s, |s|);
    var e := TrimmedEnd(s, |s|);
    assert e > 0;
    assert Trim(s) == s[..e];
  }

  /** Any text is what trimming leaves of it, with white space around. */
  lemma {:induction false} TrimsBetween(s: string) returns (before: string, after: string)
    ensures White(before) && White(after) && s == before + Trim(s) + after
  {
    hide SkipSpace, TrimmedEnd, White;
    var a, e := SkipSpace(s, 0), TrimmedEnd(s, |s|);
    SkippedIsWhite(s, 0);
    EndTrims(s, |s|);
    if a <= e {
      before, after := s[0..a], s[e..];
      WhiteFrom(s, e);
      assert s == s[0..a] + s[a..e] + s[e..];
    } else {
      before, after := s, "";
      WhiteFrom(s, e);
      WhiteBoth(s, a, e);
      assert s + "" + "" == s;
    }
  }

  lemma {:induction false} WhiteFrom(s: string, e: nat)
    requires e <= |s| && forall x :: e <= x < |s| ==> IsWhite(s[x])
    ensures White(s[e..]) && White("")
  {
  }

  lemma {:induction false} WhiteBoth(s: string, a: nat, e: nat)
    requires e <= a <= |s| && White(s[0..a]) && White(s[e..])
    ensures White(s)
  {
    assert forall x :: 0 <= x < a ==> s[0..a][x] == s[x];
    assert forall x :: e <= x < |s| ==> s[e..][x - e] == s[x];
  }
}
