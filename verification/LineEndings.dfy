/**
 * A file with `\r\n` line endings is scanned like the same file with `\n`: every scanner
 * of the migration tools walks through the two in step.
 */
module LineEndings {
  import opened Text
  import opened Scanner
  import opened Masking
  import opened Stripper
  import opened Checksum

  /** `v` is `u` with one blank in front of each newline: the carriage return, or what masking made of it. */
  ghost predicate Windows(u: string, v: string) {
    if u == [] then v == []
    else if u[0] == '\n' then |v| >= 2 && v[0] in {'\r', ' '} && v[1] == '\n' && Windows(u[1..], v[2..])
    else |v| >= 1 && v[0] == u[0] && Windows(u[1..], v[1..])
  }

  /** Offset `j` of `v` is where offset `i` of `u` has come to stand. */
  ghost predicate Aligned(u: string, i: nat, v: string, j: nat) {
    i <= |u| && j <= |v| && Windows(u[i..], v[j..])
  }

  lemma {:induction false} AlignedStep(u: string, i: nat, v: string, j: nat)
    requires Aligned(u, i, v, j)
    ensures i <= |u| && j <= |v| && (i == |u| <==> j == |v|)
    ensures i < |u| && u[i] == '\n' ==>
              j + 1 < |v| && v[j] in {'\r', ' '} && v[j + 1] == '\n' && Aligned(u, i + 1, v, j + 2)
    ensures i < |u| && u[i] != '\n' ==> v[j] == u[i] && Aligned(u, i + 1, v, j + 1)
  {
    if i < |u| {
      assert u[i..][0] == u[i] && v[j..][0] == v[j] && u[i..][1..] == u[i + 1..];
      if u[i] == '\n' {
        assert v[j..][1] == v[j + 1] && v[j..][2..] == v[j + 2..];
      } else {
        assert v[j..][1..] == v[j + 1..];
      }
    }
  }

  /** The same step backwards: how alignment grows to the left. */
  lemma {:induction false} AlignedPrepend(u: string, i: nat, v: string, j: nat)
    requires i < |u|
    ensures u[i] != '\n' && j < |v| && v[j] == u[i] && Aligned(u, i + 1, v, j + 1) ==> Aligned(u, i, v, j)
    ensures u[i] == '\n' && j + 1 < |v| && v[j] in {'\r', ' '} && v[j + 1] == '\n' && Aligned(u, i + 1, v, j + 2)
        ==> Aligned(u, i, v, j)
  {
    assert u[i..][0] == u[i] && u[i..][1..] == u[i + 1..];
    if j < |v| {
      assert v[j..][0] == v[j] && v[j..][1..] == v[j + 1..];
      if j + 1 < |v| {
        assert v[j..][1] == v[j + 1] && v[j..][2..] == v[j + 2..];
      }
    }
  }

  /** A stretch without newlines stands unchanged. */
  lemma {:induction false} RunForward(u: string, i: nat, v: string, j: nat, n: nat)
    requires Aligned(u, i, v, j) && i + n <= |u| && forall x :: i <= x < i + n ==> u[x] != '\n'
    ensures j + n <= |v| && Aligned(u, i + n, v, j + n) && v[j..j + n] == u[i..i + n]
    decreases n
  {
    hide Windows, Aligned;
    AlignedStep(u, i, v, j);
    if n > 0 {
      RunForward(u, i + 1, v, j + 1, n - 1);
      assert u[i..i + n] == [u[i]] + u[i + 1..i + n] && v[j..j + n] == [v[j]] + v[j + 1..j + n];
    }
  }

  /** A stretch without newlines, carriage returns and blanks was there before. */
  lemma {:induction false} RunBackward(u: string, i: nat, v: string, j: nat, n: nat)
    requires Aligned(u, i, v, j) && j + n <= |v| && forall x :: j <= x < j + n ==> v[x] !in {'\r', ' ', '\n'}
    ensures i + n <= |u| && Aligned(u, i + n, v, j + n) && v[j..j + n] == u[i..i + n]
    decreases n
  {
    hide Windows, Aligned;
    AlignedStep(u, i, v, j);
    if n > 0 {
      RunBackward(u, i + 1, v, j + 1, n - 1);
      assert u[i..i + n] == [u[i]] + u[i + 1..i + n] && v[j..j + n] == [v[j]] + v[j + 1..j + n];
    }
  }

  /** The stretch between two aligned pairs of offsets. */
  lemma {:induction false} SliceAligned(u: string, i: nat, e: nat, v: string, j: nat, f: nat)
    requires i <= e && Aligned(u, i, v, j) && Aligned(u, e, v, f)
    ensures j <= f && Windows(u[i..e], v[j..f])
    decreases e - i
  {
    hide Aligned;
    AlignedUnique(u, e, v, f);
    AlignedStep(u, e, v, f);
    AlignedStep(u, i, v, j);
    if i == e {
      AlignedUnique(u, i, v, j);
    } else if u[i] == '\n' {
      SliceAligned(u, i + 1, e, v, j + 2, f);
      assert u[i..e][1..] == u[i + 1..e] && v[j..f][2..] == v[j + 2..f] && v[j..f][0] == v[j] && v[j..f][1] == v[j + 1];
    } else {
      SliceAligned(u, i + 1, e, v, j + 1, f);
      assert u[i..e][1..] == u[i + 1..e] && v[j..f][1..] == v[j + 1..f] && v[j..f][0] == v[j];
    }
  }

  function Width(u: string, i: nat): (n: nat)
    requires i <= |u|
    decreases |u| - i
  {
    if i == |u| then 0 else (if u[i] == '\n' then 2 else 1) + Width(u, i + 1)
  }

  lemma {:induction false} AlignedUnique(u: string, i: nat, v: string, j: nat)
    requires Aligned(u, i, v, j)
    ensures |v| - j == Width(u, i)
    decreases |u| - i
  {
    hide Aligned;
    AlignedStep(u, i, v, j);
    if i < |u| {
      if u[i] == '\n' {
        AlignedUnique(u, i + 1, v, j + 2);
      } else {
        AlignedUnique(u, i + 1, v, j + 1);
      }
    }
  }

  lemma {:induction false} WholeAligned(u: string, v: string)
    requires Windows(u, v)
    ensures Aligned(u, 0, v, 0)
  {
    assert u[0..] == u && v[0..] == v;
  }

  // ----- the scanners in step

  lemma {:induction false} SkipSpaceInStep(u: string, i: nat, v: string, j: nat)
    requires Aligned(u, i, v, j)
    ensures Aligned(u, SkipSpace(u, i), v, SkipSpace(v, j))
    decreases |u| - i
  {
    hide Aligned;
    AlignedStep(u, i, v, j);
    if i < |u| && IsSpace(u[i]) {
      if u[i] == '\n' {
        SkipSpaceInStep(u, i + 1, v, j + 2);
      } else {
        SkipSpaceInStep(u, i + 1, v, j + 1);
      }
    }
  }

  lemma {:induction false} WordEndInStep(u: string, i: nat, v: string, j: nat)
    requires Aligned(u, i, v, j)
    ensures Aligned(u, WordEnd(u, i), v, WordEnd(v, j)) && WordEnd(v, j) - j == WordEnd(u, i) - i
    decreases |u| - i
  {
    hide Aligned;
    AlignedStep(u, i, v, j);
    if i < |u| && IsWord(u[i]) {
      WordEndInStep(u, i + 1, v, j + 1);
    }
  }

  lemma {:induction false} TagEndInStep(u: string, i: nat, v: string, j: nat)
    requires Aligned(u, i, v, j)
    ensures Aligned(u, TagEnd(u, i), v, TagEnd(v, j)) && TagEnd(v, j) - j == TagEnd(u, i) - i
    ensures forall x :: i <= x < TagEnd(u, i) ==> IsWord(u[x])
  {
    hide Aligned;
    AlignedStep(u, i, v, j);
    if i < |u| && IsIdentStart(u[i]) {
      WordEndInStep(u, i + 1, v, j + 1);
    }
  }

  /** Two ends of a scan agree: both missing, or at aligned offsets. */
  ghost predicate EndsAligned(u: string, v: string, a: Option<nat>, b: Option<nat>) {
    if a.None? then b.None? else b.Some? && Aligned(u, a.value, v, b.value)
  }

  ghost predicate IsTag(tag: string) {
    forall x :: 0 <= x < |tag| ==> IsWord(tag[x])
  }

  lemma {:induction false} TagCloserIsSlice(s: string, k: nat, tag: string)
    ensures TagCloserAt(s, k, tag) <==> k + |tag| + 2 <= |s| && s[k..k + |tag| + 2] == ['$'] + tag + ['$']
  {
    var w, n := ['$'] + tag + ['$'], |tag| + 2;
    if k + n <= |s| && s[k..k + n] == w {
      assert s[k] == w[0] && s[k + n - 1] == w[n - 1];
      assert forall x :: 0 <= x < |tag| ==> s[k + 1 + x] == s[k..k + n][x + 1] == w[x + 1] == tag[x];
    }
    if TagCloserAt(s, k, tag) {
      assert s[k + 1..k + n - 1] == tag;
      assert s[k..k + n] == [s[k]] + s[k + 1..k + n - 1] + [s[k + n - 1]];
    }
  }

  lemma {:induction false} TagCloserInStep(u: string, i: nat, v: string, j: nat, tag: string)
    requires Aligned(u, i, v, j) && IsTag(tag)
    ensures TagCloserAt(v, j, tag) <==> TagCloserAt(u, i, tag)
    ensures TagCloserAt(u, i, tag) ==> Aligned(u, i + |tag| + 2, v, j + |tag| + 2)
  {
    hide Aligned, TagCloserAt;
    var w, n := ['$'] + tag + ['$'], |tag| + 2;
    TagCloserIsSlice(u, i, tag);
    TagCloserIsSlice(v, j, tag);
    if TagCloserAt(u, i, tag) {
      SolidSlice(u, i, w);
      RunForward(u, i, v, j, n);
    }
    if TagCloserAt(v, j, tag) {
      SolidSlice(v, j, w);
      RunBackward(u, i, v, j, n);
    }
  }

  lemma {:induction false} SolidSlice(s: string, k: nat, w: string)
    requires k + |w| <= |s| && s[k..k + |w|] == w && forall x :: 0 <= x < |w| ==> w[x] !in {'\r', ' ', '\n'}
    ensures forall x :: k <= x < k + |w| ==> s[x] !in {'\r', ' ', '\n'}
  {
    forall x | k <= x < k + |w|
      ensures s[x] == w[x - k]
    {
      assert s[k..k + |w|][x - k] == s[x];
    }
  }

  /** Two adjacent characters that are no blanks. */
  lemma {:induction false} PairInStep(u: string, i: nat, v: string, j: nat, c: char, d: char)
    requires Aligned(u, i, v, j) && c !in {'\r', ' ', '\n'} && d !in {'\r', ' ', '\n'}
    ensures (i + 1 < |u| && u[i] == c && u[i + 1] == d) <==> (j + 1 < |v| && v[j] == c && v[j + 1] == d)
    ensures i + 1 < |u| && u[i] == c && u[i + 1] == d ==> Aligned(u, i + 2, v, j + 2)
  {
    hide Aligned;
    AlignedStep(u, i, v, j);
    if i < |u| && u[i] == c {
      AlignedStep(u, i + 1, v, j + 1);
    }
  }

  lemma {:induction false} DollarCloseInStep(u: string, i: nat, v: string, j: nat, tag: string)
    requires Aligned(u, i, v, j) && IsTag(tag)
    ensures EndsAligned(u, v, DollarClose(u, i, tag), DollarClose(v, j, tag))
    decreases |u| - i
  {
    hide Aligned, TagCloserAt;
    AlignedStep(u, i, v, j);
    if i < |u| {
      TagCloserInStep(u, i, v, j, tag);
      PairInStep(u, i, v, j, '$', '$');
      if u[i] == '\n' {
        NoCloserAtBlank(v, j, tag);
        NoCloserAtBlank(v, j + 1, tag);
        NoCloserAtBlank(u, i, tag);
        DollarCloseInStep(u, i + 1, v, j + 2, tag);
      } else {
        DollarCloseInStep(u, i + 1, v, j + 1, tag);
      }
    }
  }

  lemma {:induction false} NoCloserAtBlank(s: string, k: nat, tag: string)
    requires k < |s| && s[k] in {'\r', ' ', '\n'}
    ensures !TagCloserAt(s, k, tag) && !BareCloserAt(s, k)
  {
  }

  lemma {:induction false} DollarInStep(u: string, i: nat, v: string, j: nat)
    requires Aligned(u, i, v, j) && i < |u| && j < |v|
    ensures EndsAligned(u, v, DollarEnd(u, i), DollarEnd(v, j))
  {
    hide Aligned, DollarClose;
    AlignedStep(u, i, v, j);
    if u[i] == '$' {
      TagEndInStep(u, i + 1, v, j + 1);
      var q, r := TagEnd(u, i + 1), TagEnd(v, j + 1);
      AlignedStep(u, q, v, r);
      RunForward(u, i + 1, v, j + 1, q - i - 1);
      if q < |u| && u[q] == '$' {
        DollarCloseInStep(u, q + 1, v, r + 1, u[i + 1..q]);
      }
    }
  }

  lemma {:induction false} BlockCloseInStep(u: string, i: nat, v: string, j: nat)
    requires Aligned(u, i, v, j)
    ensures EndsAligned(u, v, BlockClose(u, i), BlockClose(v, j))
    decreases |u| - i
  {
    hide Aligned;
    AlignedStep(u, i, v, j);
    if i < |u| {
      PairInStep(u, i, v, j, '*', '/');
      if u[i] == '\n' {
        BlockCloseInStep(u, i + 1, v, j + 2);
      } else {
        AlignedStep(u, i + 1, v, j + 1);
        BlockCloseInStep(u, i + 1, v, j + 1);
      }
    }
  }

  lemma {:induction false} BlockInStep(u: string, i: nat, v: string, j: nat)
    requires Aligned(u, i, v, j) && i < |u| && j < |v|
    ensures EndsAligned(u, v, BlockEnd(u, i), BlockEnd(v, j))
  {
    hide Aligned, BlockClose;
    PairInStep(u, i, v, j, '/', '*');
    if BlockEnd(u, i).Some? || (i + 1 < |u| && u[i] == '/' && u[i + 1] == '*') {
      BlockCloseInStep(u, i + 2, v, j + 2);
    }
  }

  /** A line comment takes the carriage return in, and ends before the same newline. */
  lemma {:induction false} LineCloseInStep(u: string, i: nat, v: string, j: nat)
    requires Aligned(u, i, v, j)
    ensures var e, f := LineClose(u, i), LineClose(v, j);
            if e == |u| then f == |v| else u[e] == '\n' && f > 0 && Aligned(u, e, v, f - 1)
    ensures LineClose(v, j) >= j
    decreases |u| - i
  {
    hide Aligned;
    AlignedStep(u, i, v, j);
    if i < |u| && u[i] != '\n' {
      LineCloseInStep(u, i + 1, v, j + 1);
    }
  }

  lemma {:induction false} QuoteCloseInStep(u: string, i: nat, v: string, j: nat, a: Option<nat>, b: Option<nat>)
    requires Aligned(u, i, v, j) && EndsAligned(u, v, a, b)
    requires (a.Some? ==> a.value < i) && (b.Some? ==> b.value < j)
    ensures EndsAligned(u, v, QuoteClose(u, i, a), QuoteClose(v, j, b))
    decreases |u| - i
  {
    hide Aligned;
    AlignedStep(u, i, v, j);
    if i < |u| {
      PairInStep(u, i, v, j, '\'', '\'');
      if u[i] == '\n' {
        QuoteCloseInStep(u, i + 1, v, j + 2, a, b);
      } else if u[i] != '\'' {
        QuoteCloseInStep(u, i + 1, v, j + 1, a, b);
      } else if i + 1 < |u| && u[i + 1] == '\'' {
        QuoteCloseInStep(u, i + 2, v, j + 2, Some(i + 1), Some(j + 1));
      }
    }
  }

  lemma {:induction false} QuoteInStep(u: string, i: nat, v: string, j: nat)
    requires Aligned(u, i, v, j) && i < |u| && j < |v|
    ensures EndsAligned(u, v, QuoteEnd(u, i), QuoteEnd(v, j))
  {
    hide Aligned, QuoteClose;
    AlignedStep(u, i, v, j);
    if u[i] == '\'' {
      QuoteCloseInStep(u, i + 1, v, j + 1, None, None);
    }
  }

  // ----- transaction control in step

  ghost predicate IsUpper(w: string) {
    forall x :: 0 <= x < |w| ==> 'A' <= w[x] <= 'Z'
  }

  lemma {:induction false} HasWordInStep(u: string, i: nat, v: string, j: nat, w: string)
    requires Aligned(u, i, v, j) && IsUpper(w)
    ensures HasWord(v, j, w) <==> HasWord(u, i, w)
    ensures HasWord(u, i, w) ==> Aligned(u, i + |w|, v, j + |w|)
  {
    hide Aligned;
    if HasWord(u, i, w) {
      RunForward(u, i, v, j, |w|);
      SameWord(u, i, v, j, w);
    }
    if HasWord(v, j, w) {
      RunBackward(u, i, v, j, |w|);
      SameWord(u, i, v, j, w);
    }
  }

  lemma {:induction false} SameWord(u: string, i: nat, v: string, j: nat, w: string)
    requires i + |w| <= |u| && j + |w| <= |v| && v[j..j + |w|] == u[i..i + |w|]
    ensures HasWord(v, j, w) <==> HasWord(u, i, w)
  {
    if HasWord(u, i, w) {
      forall y | j <= y < j + |w|
        ensures Upper(v[y]) == w[y - j]
      {
        assert v[j..j + |w|][y - j] == v[y] && u[i..i + |w|][y - j] == u[i + (y - j)];
      }
    }
    if HasWord(v, j, w) {
      forall y | i <= y < i + |w|
        ensures Upper(u[y]) == w[y - i]
      {
        assert u[i..i + |w|][y - i] == u[y] && v[j..j + |w|][y - i] == v[j + (y - i)];
      }
    }
  }

  lemma {:induction false} TransactionInStep(u: string, i: nat, v: string, j: nat)
    requires Aligned(u, i, v, j)
    ensures EndsAligned(u, v, TransactionWord(u, i), TransactionWord(v, j))
  {
    hide Aligned, HasWord;
    AlignedStep(u, i, v, j);
    SkipSpaceInStep(u, i, v, j);
    HasWordInStep(u, SkipSpace(u, i), v, SkipSpace(v, j), "TRANSACTION");
    SkipBoth(u, i, v, j);
  }

  /** White space is skipped in both or in neither. */
  lemma {:induction false} SkipBoth(u: string, i: nat, v: string, j: nat)
    requires Aligned(u, i, v, j)
    ensures SkipSpace(u, i) > i <==> SkipSpace(v, j) > j
  {
    hide Aligned;
    AlignedStep(u, i, v, j);
  }

  lemma {:induction false} KeywordInStep(u: string, i: nat, v: string, j: nat, k: Keyword)
    requires Aligned(u, i, v, j)
    ensures EndsAligned(u, v, KeywordEnd(k, u, i), KeywordEnd(k, v, j))
  {
    hide Aligned, HasWord, TransactionWord;
    AlignedStep(u, i, v, j);
    HasWordInStep(u, i, v, j, Head(k));
    if HasWord(u, i, Head(k)) {
      AlignedStep(u, i + |Head(k)|, v, j + |Head(k)|);
      TransactionInStep(u, i + |Head(k)|, v, j + |Head(k)|);
    }
  }

  lemma {:induction false} PhraseInStep(u: string, i: nat, v: string, j: nat)
    requires Aligned(u, i, v, j)
    ensures i <= |u| && j <= |v| && PhraseAt(v, j) == PhraseAt(u, i)
    ensures forall k :: EndsAligned(u, v, KeywordEnd(k, u, i), KeywordEnd(k, v, j))
  {
    hide Aligned, KeywordEnd;
    AlignedStep(u, i, v, j);
    forall k
      ensures EndsAligned(u, v, KeywordEnd(k, u, i), KeywordEnd(k, v, j))
    {
      KeywordInStep(u, i, v, j, k);
    }
  }

  /** The characters in front are word characters alike. */
  ghost predicate PrevAlike(u: string, i: nat, v: string, j: nat)
    requires i <= |u| && j <= |v|
  {
    (i > 0 && IsWord(u[i - 1])) <==> (j > 0 && IsWord(v[j - 1]))
  }

  lemma {:induction false} ControlInStep(u: string, i: nat, v: string, j: nat)
    requires Aligned(u, i, v, j) && i < |u| && j < |v| && PrevAlike(u, i, v, j)
    ensures EndsAligned(u, v, ControlEnd(u, i), ControlEnd(v, j))
  {
    hide Aligned, KeywordEnd, PhraseAt;
    PhraseInStep(u, i, v, j);
    var k := PhraseAt(u, i);
    if k.Some? {
      var p, q := KeywordEnd(k.value, u, i).value, KeywordEnd(k.value, v, j).value;
      SkipSpaceInStep(u, p, v, q);
      AlignedStep(u, SkipSpace(u, p), v, SkipSpace(v, q));
    }
  }

  // ----- whole passes in step

  /** The two texts break their lines at the same offsets. */
  ghost predicate SameBreaks(m: string, x: string) {
    |m| == |x| && forall k :: 0 <= k < |m| ==> (m[k] == '\n' <==> x[k] == '\n')
  }

  /** What is aligned in one text is aligned in another that breaks its lines alike, if that one is aligned at all. */
  lemma {:induction false} AlignedElsewhere(m: string, i: nat, m': string, j: nat, x: string, y: string)
    requires Aligned(m, i, m', j) && SameBreaks(m, x) && SameBreaks(m', y) && Windows(x, y)
    ensures Aligned(x, i, y, j)
    decreases i
  {
    hide Aligned;
    WholeAligned(x, y);
    AlignedStep(m, i, m', j);
    var k := Reach(x, 0, y, 0, i, m, m', j);
  }

  lemma {:induction false} Reach(x: string, a: nat, y: string, b: nat, i: nat, m: string, m': string, j: nat)
    returns (k: nat)
    requires Aligned(x, a, y, b) && a <= i && Aligned(m, i, m', j) && SameBreaks(m, x) && SameBreaks(m', y)
    ensures Aligned(x, i, y, j) && k == j
    decreases i - a
  {
    hide Aligned;
    AlignedStep(x, a, y, b);
    AlignedStep(m, i, m', j);
    if a == i {
      AlignedUnique(x, i, y, b);
      AlignedUnique(m, i, m', j);
      SameWidth(m, x, i);
      k := j;
    } else if x[a] == '\n' {
      k := Reach(x, a + 1, y, b + 2, i, m, m', j);
    } else {
      k := Reach(x, a + 1, y, b + 1, i, m, m', j);
    }
  }

  lemma {:induction false} SameWidth(m: string, x: string, i: nat)
    requires SameBreaks(m, x) && i <= |m|
    ensures Width(x, i) == Width(m, i)
    decreases |m| - i
  {
    if i < |m| {
      SameWidth(m, x, i + 1);
    }
  }

  /** Blanking one marked stretch in both. */
  lemma {:induction false} BlankStretchInStep(x: string, i: nat, e: nat, c: seq<bool>, y: string, j: nat, f: nat,
                                              d: seq<bool>)
    requires |c| == |x| && |d| == |y| && i <= e && Aligned(x, i, y, j) && Aligned(x, e, y, f)
    requires (forall k :: i <= k < e && k < |c| ==> c[k]) && (forall k :: j <= k < f && k < |d| ==> d[k])
    requires Aligned(BlankAt(x, c), e, BlankAt(y, d), f)
    ensures Aligned(BlankAt(x, c), i, BlankAt(y, d), j)
    decreases e - i
  {
    hide Aligned;
    AlignedStep(x, i, y, j);
    AlignedStep(x, e, y, f);
    AlignedUnique(x, e, y, f);
    if i == e {
      AlignedUnique(x, i, y, j);
    } else {
      SliceAligned(x, i, e, y, j, f);
      AlignedPrepend(BlankAt(x, c), i, BlankAt(y, d), j);
      if x[i] == '\n' {
        SliceAligned(x, i + 1, e, y, j + 2, f);
        BlankStretchInStep(x, i + 1, e, c, y, j + 2, f, d);
      } else {
        SliceAligned(x, i + 1, e, y, j + 1, f);
        BlankStretchInStep(x, i + 1, e, c, y, j + 1, f, d);
      }
    }
  }

  ghost predicate BothVisited(p: Pattern, m: string, i: nat, m': string, j: nat) {
    Visited(p, m, i) && Visited(p, m', j)
  }

  /** Everything that stays fixed while a pattern is passed over `m` and `m'` and blanks `x` and `y`. */
  ghost predicate Passing(p: Pattern, m: string, m': string, x: string, y: string) {
    Windows(m, m') && Windows(x, y) && SameBreaks(m, x) && SameBreaks(m', y)
  }

  function Blanked(p: Pattern, m: string, x: string): (r: string)
    requires |m| == |x|
    ensures |r| == |x|
  {
    BlankAt(x, Marks(p, m))
  }

  /** No pattern begins with a blank. */
  lemma {:induction false} BlankBeginsNothing(p: Pattern, s: string, k: nat)
    requires k < |s| && s[k] in {'\r', ' ', '\n'}
    ensures MatchEnd(p, s, k).None?
  {
    forall kw: Keyword
      ensures KeywordEnd(kw, s, k).None?
    {
      assert Upper(s[k]) != Head(kw)[0];
    }
  }

  lemma {:induction false} MatchInStep(p: Pattern, u: string, i: nat, v: string, j: nat)
    requires Aligned(u, i, v, j) && i < |u| && j < |v| && (p == Control ==> PrevAlike(u, i, v, j)) && p != Line
    ensures EndsAligned(u, v, MatchEnd(p, u, i), MatchEnd(p, v, j))
  {
    hide Aligned, DollarEnd, BlockEnd, QuoteEnd, ControlEnd, LineEnd;
    match p
    case Dollar => DollarInStep(u, i, v, j);
    case Block => BlockInStep(u, i, v, j);
    case Quote => QuoteInStep(u, i, v, j);
    case Control => ControlInStep(u, i, v, j);
    case Line =>
  }

  /** A newline, or any other character at which no match begins, is passed over. */
  lemma {:induction false} StepUnmarked(p: Pattern, m: string, i: nat, m': string, j: nat, x: string, y: string)
    requires Passing(p, m, m', x, y) && Aligned(m, i, m', j) && i < |m| && BothVisited(p, m, i, m', j)
    requires MatchEnd(p, m, i).None? && (m[i] != '\n' ==> j < |m'| && MatchEnd(p, m', j).None?)
    ensures var n := j + (if m[i] == '\n' then 2 else 1);
            && BothVisited(p, m, i + 1, m', n) && Aligned(m, i + 1, m', n)
            && (Aligned(Blanked(p, m, x), i + 1, Blanked(p, m', y), n) ==>
                  Aligned(Blanked(p, m, x), i, Blanked(p, m', y), j))
  {
    hide Aligned, MatchEnd, Windows, Marked;
    AlignedStep(m, i, m', j);
    AlignedElsewhere(m, i, m', j, x, y);
    AlignedStep(x, i, y, j);
    VisitedStep(p, m, i);
    AlignedPrepend(Blanked(p, m, x), i, Blanked(p, m', y), j);
    if m[i] == '\n' {
      BlankBeginsNothing(p, m', j);
      VisitedStep(p, m', j);
      BlankBeginsNothing(p, m', j + 1);
      VisitedStep(p, m', j + 1);
    } else {
      VisitedStep(p, m', j);
    }
  }

  /** A match is blanked whole in both. */
  lemma {:induction false} StepMarked(p: Pattern, m: string, i: nat, e: nat, m': string, j: nat, f: nat, x: string,
                                      y: string)
    requires Passing(p, m, m', x, y) && Aligned(m, i, m', j) && Aligned(m, e, m', f) && i < e && j < |m'|
    requires BothVisited(p, m, i, m', j) && i < |m|
    requires MatchEnd(p, m, i) == Some(e) && MatchEnd(p, m', j).Some? && f <= MatchEnd(p, m', j).value
    ensures Aligned(Blanked(p, m, x), e, Blanked(p, m', y), f) ==> Aligned(Blanked(p, m, x), i, Blanked(p, m', y), j)
    ensures Visited(p, m, e) && Visited(p, m', MatchEnd(p, m', j).value)
    ensures forall k :: j <= k < MatchEnd(p, m', j).value ==> Marks(p, m')[k]
  {
    hide Aligned, MatchEnd, Windows, Marked;
    VisitedStep(p, m, i);
    VisitedStep(p, m', j);
    AlignedElsewhere(m, i, m', j, x, y);
    AlignedElsewhere(m, e, m', f, x, y);
    if Aligned(Blanked(p, m, x), e, Blanked(p, m', y), f) {
      BlankStretchInStep(x, i, e, Marks(p, m), y, j, f, Marks(p, m'));
    }
  }

  /** A pattern blanks corresponding characters. */
  lemma {:induction false} PassInStep(p: Pattern, m: string, i: nat, m': string, j: nat, x: string, y: string)
    requires Passing(p, m, m', x, y) && Aligned(m, i, m', j) && BothVisited(p, m, i, m', j)
    requires i <= |m| && j <= |m'| && (p == Control ==> PrevAlike(m, i, m', j))
    ensures Aligned(Blanked(p, m, x), i, Blanked(p, m', y), j)
    decreases |m| - i
  {
    hide Aligned, MatchEnd, Windows, Passing, BothVisited, Blanked;
    AlignedStep(m, i, m', j);
    if i == |m| {
      EndAligned(p, m, m', x, y);
    } else if p == Line {
      LineStep(m, i, m', j, x, y);
    } else {
      MatchInStep(p, m, i, m', j);
      if m[i] == '\n' {
        BlankBeginsNothing(p, m, i);
        StepUnmarked(p, m, i, m', j, x, y);
        PassInStep(p, m, i + 1, m', j + 2, x, y);
      } else if MatchEnd(p, m, i).None? {
        StepUnmarked(p, m, i, m', j, x, y);
        PassInStep(p, m, i + 1, m', j + 1, x, y);
      } else {
        var e, f := MatchEnd(p, m, i).value, MatchEnd(p, m', j).value;
        StepMarked(p, m, i, e, m', j, f, x, y);
        SameEnd(p, m, i, m', j);
        AlignedStep(m, e, m', f);
        BothVisitedAt(p, m, e, m', f);
        PassInStep(p, m, e, m', f, x, y);
      }
    }
  }

  lemma {:induction false} BothVisitedAt(p: Pattern, m: string, i: nat, m': string, j: nat)
    requires Visited(p, m, i) && Visited(p, m', j)
    ensures BothVisited(p, m, i, m', j)
  {
    hide Visited;
  }

  lemma {:induction false} EndAligned(p: Pattern, m: string, m': string, x: string, y: string)
    requires Passing(p, m, m', x, y)
    ensures Aligned(Blanked(p, m, x), |m|, Blanked(p, m', y), |m'|)
  {
  }

  /** A match of transaction control ends with a semicolon. */
  lemma {:induction false} SameEnd(p: Pattern, m: string, i: nat, m': string, j: nat)
    requires i < |m| && j < |m'| && MatchEnd(p, m, i).Some? && MatchEnd(p, m', j).Some?
    ensures p == Control ==> PrevAlike(m, MatchEnd(p, m, i).value, m', MatchEnd(p, m', j).value)
  {
  }

  /** A line comment, whose match in the second text takes the carriage return in. */
  lemma {:induction false} LineStep(m: string, i: nat, m': string, j: nat, x: string, y: string)
    requires Passing(Line, m, m', x, y) && Aligned(m, i, m', j) && BothVisited(Line, m, i, m', j) && i < |m| && j < |m'|
    ensures Aligned(Blanked(Line, m, x), i, Blanked(Line, m', y), j)
    decreases |m| - i, 0
  {
    hide Aligned, Windows, Passing, BothVisited, Blanked, LineClose;
    AlignedStep(m, i, m', j);
    PairInStep(m, i, m', j, '-', '-');
    if LineEnd(m, i).None? {
      StepUnmarked(Line, m, i, m', j, x, y);
      PassInStep(Line, m, i + 1, m', j + (if m[i] == '\n' then 2 else 1), x, y);
    } else {
      LineCloseInStep(m, i + 2, m', j + 2);
      var e, f := LineEnd(m, i).value, LineEnd(m', j).value;
      if e == |m| {
        WindowsEnd(m, m', Passing(Line, m, m', x, y));
        StepMarked(Line, m, i, e, m', j, f, x, y);
        EndAligned(Line, m, m', x, y);
      } else {
        StepMarked(Line, m, i, e, m', j, f - 1, x, y);
        AlignedStep(m, e, m', f - 1);
        AfterComment(m, e, m', f, x, y);
        PassInStep(Line, m, e + 1, m', f + 1, x, y);
      }
    }
  }

  lemma {:induction false} WindowsEnd(m: string, m': string, known: bool)
    ensures Aligned(m, |m|, m', |m'|)
  {
  }

  /** Behind a comment: the newline, and in the second text the blanked carriage return before it. */
  lemma {:induction false} AfterComment(m: string, e: nat, m': string, f: nat, x: string, y: string)
    requires Passing(Line, m, m', x, y) && 0 < f && Aligned(m, e, m', f - 1) && e < |m| && m[e] == '\n'
    requires Visited(Line, m, e) && Visited(Line, m', f) && f <= |m'| && Marks(Line, m')[f - 1]
    ensures BothVisited(Line, m, e + 1, m', f + 1) && Aligned(m, e + 1, m', f + 1)
    ensures Aligned(Blanked(Line, m, x), e + 1, Blanked(Line, m', y), f + 1)
        ==> Aligned(Blanked(Line, m, x), e, Blanked(Line, m', y), f - 1)
  {
    hide Aligned, Windows, Marked;
    AlignedStep(m, e, m', f - 1);
    AlignedElsewhere(m, e, m', f - 1, x, y);
    AlignedStep(x, e, y, f - 1);
    VisitedStep(Line, m, e);
    VisitedStep(Line, m', f);
    AlignedPrepend(Blanked(Line, m, x), e, Blanked(Line, m', y), f - 1);
  }
}
