/** Character classes and blanking, shared by every scanner of the model. */
module Text {

  datatype Option<+T> = None | Some(value: T)

  /** `\w` of the source's regular expressions. */
  predicate IsWord(c: char) {
    'a' <= c <= 'z' || 'A' <= c <= 'Z' || '0' <= c <= '9' || c == '_'
  }

  predicate IsIdentStart(c: char) {
    'a' <= c <= 'z' || 'A' <= c <= 'Z' || c == '_'
  }

  /** `\s` of the source's regular expressions, and what `trim` removes (ECMA-262 WhiteSpace and LineTerminator). */
  predicate IsSpace(c: char) {
    || '\U{0009}' <= c <= '\U{000D}'
    || c == ' ' || c == '\U{00A0}' || c == '\U{1680}'
    || '\U{2000}' <= c <= '\U{200A}'
    || c == '\U{2028}' || c == '\U{2029}' || c == '\U{202F}' || c == '\U{205F}' || c == '\U{3000}'
    || c == '\U{FEFF}'
  }

  /** A character that `.` does not match. */
  predicate EndsLine(c: char) {
    c == '\n' || c == '\r' || c == '\U{2028}' || c == '\U{2029}'
  }

  /** Case folding of the `i` flag, which only ever compares against ASCII letters here. */
  function Upper(c: char): char {
    if 'a' <= c <= 'z' then c - ' ' else c
  }

  /** What blanking leaves of one character: newlines stay, everything else becomes a space. */
  function BlankChar(c: char): char {
    if c == '\n' then c else ' '
  }

  /** The characters of `s` whose mark is set, blanked in place. */
  function BlankAt(s: string, marks: seq<bool>): (t: string)
    requires |marks| == |s|
    ensures |t| == |s|
  {
    seq(|s|, i requires 0 <= i < |s| => if marks[i] then BlankChar(s[i]) else s[i])
  }

  /** `t` is `s` with some characters blanked. */
  ghost predicate Blanking(s: string, t: string) {
    |s| == |t| && forall j :: 0 <= j < |s| ==> t[j] == s[j] || t[j] == BlankChar(s[j])
  }

  /** `w` occurs in `s` at offset `k`. */
  predicate HasAt(s: string, k: nat, w: string) {
    k + |w| <= |s| && s[k..k + |w|] == w
  }

  /** `s.split(separator)`. */
  function Split(s: string, separator: char): (parts: seq<string>)
    ensures |parts| > 0 && forall k :: 0 <= k < |parts| ==> separator !in parts[k]
  {
    if s == [] then [[]]
    else
      var rest := Split(s[1..], separator);
      if s[0] == separator then [[]] + rest else [[s[0]] + rest[0]] + rest[1..]
  }

  /** `parts.join(separator)`. */
  function Join(parts: seq<string>, separator: char): (s: string)
    requires parts != []
  {
    if |parts| == 1 then parts[0] else parts[0] + [separator] + Join(parts[1..], separator)
  }

  lemma {:induction false} JoinInvertsSplit(s: string, c: char)
    ensures Join(Split(s, c), c) == s
  {
    if s != "" {
      JoinInvertsSplit(s[1..], c);
      var r := Split(s[1..], c);
      if s[0] == c {
        assert ([""] + r)[1..] == r;
        assert s == "" + [c] + Join(r, c);
      } else {
        var joined := [[s[0]] + r[0]] + r[1..];
        assert joined[1..] == r[1..];
        assert s == [s[0]] + Join(r, c);
      }
    }
  }

  lemma {:induction false} SplitHead(part: string, rest: string, c: char)
    requires c !in part
    ensures Split(part + [c] + rest, c) == [part] + Split(rest, c)
    ensures Split(part, c) == [part]
  {
    if part == "" {
      assert part + [c] + rest == [c] + rest;
      assert ([c] + rest)[1..] == rest;
    } else {
      SplitHead(part[1..], rest, c);
      assert (part + [c] + rest)[1..] == part[1..] + [c] + rest;
      assert part == [part[0]] + part[1..];
    }
  }

  lemma {:induction false} SplitInvertsJoin(parts: seq<string>, c: char)
    requires parts != [] && forall k :: 0 <= k < |parts| ==> c !in parts[k]
    ensures Split(Join(parts, c), c) == parts
  {
    if |parts| == 1 {
      SplitHead(parts[0], "", c);
      assert parts == [parts[0]];
    } else {
      SplitInvertsJoin(parts[1..], c);
      SplitHead(parts[0], Join(parts[1..], c), c);
    }
  }

  /** First index at or after `i` whose character is not white space. */
  function SkipSpace(s: string, i: nat): (k: nat)
    requires i <= |s|
    ensures i <= k <= |s|
    ensures forall x :: i <= x < k ==> IsSpace(s[x])
    ensures k < |s| ==> !IsSpace(s[k])
    decreases |s| - i
  {
    if i < |s| && IsSpace(s[i]) then SkipSpace(s, i + 1) else i
  }

  /** First index at or after `i` whose character is not a word character. */
  function WordEnd(s: string, i: nat): (k: nat)
    requires i <= |s|
    ensures i <= k <= |s|
    ensures forall x :: i <= x < k ==> IsWord(s[x])
    ensures k < |s| ==> !IsWord(s[k])
    decreases |s| - i
  {
    if i < |s| && IsWord(s[i]) then WordEnd(s, i + 1) else i
  }

  /** End of `s` without its trailing white space. */
  function TrimmedEnd(s: string, k: nat): (e: nat)
    requires k <= |s|
    ensures e <= k
    decreases k
  {
    if k > 0 && IsSpace(s[k - 1]) then TrimmedEnd(s, k - 1) else k
  }

  /** `s.trim()`. */
  function Trim(s: string): (t: string) {
    var a := SkipSpace(s, 0);
    var e := TrimmedEnd(s, |s|);
    if a <= e then s[a..e] else []
  }

  lemma {:induction false} BlankAtIsBlanking(s: string, marks: seq<bool>)
    requires |marks| == |s|
    ensures Blanking(s, BlankAt(s, marks))
  {
  }

  lemma {:induction false} BlankingTransitive(s: string, t: string, u: string)
    requires Blanking(s, t) && Blanking(t, u)
    ensures Blanking(s, u)
  {
  }
}
