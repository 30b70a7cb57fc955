/** The content checksum of a migration file, and why it does not depend on line endings. */
module Checksum {

  // ----- the two replacements of `normaliseLineEndings`

  function ReplaceCrLf(s: string): (t: string) {
    if s == [] then []
    else if |s| >= 2 && s[0] == '\r' && s[1] == '\n' then ['\n'] + ReplaceCrLf(s[2..])
    else [s[0]] + ReplaceCrLf(s[1..])
  }

  function ReplaceCr(s: string): (t: string) {
    if s == [] then []
    else [if s[0] == '\r' then '\n' else s[0]] + ReplaceCr(s[1..])
  }

  function NormaliseLineEndings(s: string): (t: string) {
    ReplaceCr(ReplaceCrLf(s))
  }

  /** SHA-256 is a parameter: nothing below depends on which function it is. */
  function MigrationChecksum(hash: string -> string, s: string): (h: string) {
    hash(NormaliseLineEndings(s))
  }

  // ----- converting a file from one convention to another

  datatype LineEnding = Lf | CrLf | Cr

  function Spelling(e: LineEnding): (w: string) {
    match e
    case Lf => "\n"
    case CrLf => "\r\n"
    case Cr => "\r"
  }

  /** Every line ending of `s`, whichever convention it follows, rewritten as `e`. */
  function Convert(s: string, e: LineEnding): (t: string) {
    if s == [] then []
    else if |s| >= 2 && s[0] == '\r' && s[1] == '\n' then Spelling(e) + Convert(s[2..], e)
    else if s[0] == '\r' || s[0] == '\n' then Spelling(e) + Convert(s[1..], e)
    else [s[0]] + Convert(s[1..], e)
  }

  lemma {:induction false} NormaliseIsConversion(s: string)
    ensures NormaliseLineEndings(s) == Convert(s, Lf)
    decreases |s|
  {
    if s != [] {
      if |s| >= 2 && s[0] == '\r' && s[1] == '\n' {
        NormaliseIsConversion(s[2..]);
        assert (['\n'] + ReplaceCrLf(s[2..]))[1..] == ReplaceCrLf(s[2..]);
      } else {
        NormaliseIsConversion(s[1..]);
        assert ([s[0]] + ReplaceCrLf(s[1..]))[1..] == ReplaceCrLf(s[1..]);
      }
    }
  }

  lemma {:induction false} NoLfAfterCr(s: string)
    ensures forall c :: c in Convert(s, Cr) ==> c != '\n'
    decreases |s|
  {
    if s != [] {
      if |s| >= 2 && s[0] == '\r' && s[1] == '\n' {
        NoLfAfterCr(s[2..]);
      } else {
        NoLfAfterCr(s[1..]);
      }
    }
  }

  /** One converted line ending is one line ending again. */
  lemma {:induction false} EndingFirst(e: LineEnding, rest: string)
    requires e == Cr ==> rest == [] || rest[0] != '\n'
    ensures Convert(Spelling(e) + rest, Lf) == ['\n'] + Convert(rest, Lf)
  {
    var s := Spelling(e) + rest;
    match e
    case Lf => assert s[1..] == rest;
    case CrLf => assert s[2..] == rest;
    case Cr => assert s[1..] == rest;
  }

  lemma {:induction false} ConvertTwice(s: string, e: LineEnding)
    ensures Convert(Convert(s, e), Lf) == Convert(s, Lf)
    decreases |s|
  {
    if s != [] {
      var crlf := |s| >= 2 && s[0] == '\r' && s[1] == '\n';
      var rest := if crlf then s[2..] else s[1..];
      ConvertTwice(rest, e);
      if crlf || s[0] == '\r' || s[0] == '\n' {
        NoLfAfterCr(rest);
        EndingFirst(e, Convert(rest, e));
      } else {
        assert ([s[0]] + Convert(rest, e))[1..] == Convert(rest, e);
      }
    }
  }

  /** The checksum answers whether the content changed, not which system wrote the file. */
  lemma {:induction false} ChecksumIgnoresLineEndings(hash: string -> string, s: string, e: LineEnding)
    ensures NormaliseLineEndings(Convert(s, e)) == NormaliseLineEndings(s)
    ensures MigrationChecksum(hash, Convert(s, e)) == MigrationChecksum(hash, s)
  {
    NormaliseIsConversion(s);
    NormaliseIsConversion(Convert(s, e));
    ConvertTwice(s, e);
  }

  /**
   * The checksum distinguishes nothing else: two files are normalised alike exactly
   * when one conversion makes them equal, so with an injective hash any other edit is drift.
   */
  lemma {:induction false} SameChecksumIffSameContent(hash: string -> string, s: string, t: string)
    requires forall x, y :: hash(x) == hash(y) ==> x == y
    ensures MigrationChecksum(hash, s) == MigrationChecksum(hash, t) <==> Convert(s, CrLf) == Convert(t, CrLf)
  {
    NormaliseIsConversion(s);
    NormaliseIsConversion(t);
    if Convert(s, Lf) == Convert(t, Lf) {
      RestoreEndings(s, CrLf);
      RestoreEndings(t, CrLf);
    }
    if Convert(s, CrLf) == Convert(t, CrLf) {
      ConvertTwice(s, CrLf);
      ConvertTwice(t, CrLf);
    }
  }

  /** Any convention can be recovered from the normal form. */
  lemma {:induction false} RestoreEndings(s: string, e: LineEnding)
    ensures Convert(Convert(s, Lf), e) == Convert(s, e)
    decreases |s|
  {
    if s != [] {
      var crlf := |s| >= 2 && s[0] == '\r' && s[1] == '\n';
      var rest := if crlf then s[2..] else s[1..];
      RestoreEndings(rest, e);
      if crlf || s[0] == '\r' || s[0] == '\n' {
        assert (['\n'] + Convert(rest, Lf))[1..] == Convert(rest, Lf);
      } else {
        assert ([s[0]] + Convert(rest, Lf))[1..] == Convert(rest, Lf);
      }
    }
  }
}
