/**
 * Paths of literal and `:param` segments: the matcher that is built from one, its sample, and
 * what one path includes of another.
 */
module Paths {
  import opened Text

  // ----- paths

  function NonEmpty(parts: seq<string>): (r: seq<string>)
    ensures forall k :: 0 <= k < |r| ==> r[k] != [] && r[k] in parts
  {
    if parts == [] then []
    else (if parts[0] == [] then [] else [parts[0]]) + NonEmpty(parts[1..])
  }

  /** The non-empty segments of a path. */
  function Segments(path: string): (segs: seq<string>)
    ensures GoodParts(segs)
  {
    NonEmpty(Split(path, '/'))
  }

  ghost predicate GoodPart(p: string) {
    p != [] && '/' !in p
  }

  ghost predicate GoodParts(parts: seq<string>) {
    forall k :: 0 <= k < |parts| ==> GoodPart(parts[k])
  }

  predicate IsParam(seg: string) {
    seg != [] && seg[0] == ':'
  }

  /** `'/' + part` for each part. */
  function Render(parts: seq<string>): (url: string) {
    if parts == [] then [] else ['/'] + parts[0] + Render(parts[1..])
  }

  function SampleParts(segs: seq<string>): (parts: seq<string>)
    ensures |parts| == |segs|
  {
    seq(|segs|, k requires 0 <= k < |segs| => if IsParam(segs[k]) then "7" else segs[k])
  }

  /** `sampleFor`: the root samples to a lone slash. */
  function SampleFor(path: string): (url: string) {
    if Segments(path) == [] then "/" else Render(SampleParts(Segments(path)))
  }

  // ----- the matcher

  /** First slash at or after `i`, or the end: where `[^/]+` stops. */
  function SlashFrom(s: string, i: nat): (k: nat)
    requires i <= |s|
    ensures i <= k <= |s|
    ensures forall x :: i <= x < k ==> s[x] != '/'
    ensures k < |s| ==> s[k] == '/'
    decreases |s| - i
  {
    if i < |s| && s[i] != '/' then SlashFrom(s, i + 1) else i
  }

  /** The rest of the regular expression, from segment to segment, up to `$`. */
  predicate MatchFrom(segs: seq<string>, url: string)
    decreases |segs|
  {
    if segs == [] then url == []
    else if url == [] || url[0] != '/' then false
    else if IsParam(segs[0]) then
      var k := SlashFrom(url, 1);
      k > 1 && MatchFrom(segs[1..], url[k..])
    else
      HasAt(url, 1, segs[0]) && MatchFrom(segs[1..], url[1 + |segs[0]|..])
  }

  /** `pathMatcher(path).test(url)`. */
  predicate Matches(path: string, url: string) {
    MatchFrom(Segments(path), url)
  }

  /** The part is the segment, or the segment is a colon and a name. */
  predicate SegMatches(seg: string, part: string) {
    part == seg || (seg != "" && seg[0] == ':')
  }

  ghost predicate PartsMatch(segs: seq<string>, parts: seq<string>) {
    |parts| == |segs| && forall k :: 0 <= k < |segs| ==> SegMatches(segs[k], parts[k])
  }

  // ----- the matcher decides segment by segment

  lemma {:induction false} SlashAt(s: string, i: nat, k: nat)
    requires i <= k <= |s| && (k < |s| ==> s[k] == '/')
    requires forall x :: i <= x < k ==> s[x] != '/'
    ensures SlashFrom(s, i) == k
    decreases k - i
  {
    if i < k {
      SlashAt(s, i + 1, k);
    }
  }

  lemma {:induction false} RenderStartsWithSlash(parts: seq<string>)
    ensures Render(parts) == [] || Render(parts)[0] == '/'
  {
  }

  /** A segment that matches its part leaves the rest to be matched. */
  lemma {:induction false} OneSegment(seg: string, part: string, segs: seq<string>, rest: string)
    requires GoodPart(seg) && GoodPart(part) && (rest == [] || rest[0] == '/')
    requires SegMatches(seg, part)
    ensures MatchFrom([seg] + segs, ['/'] + part + rest) <==> MatchFrom(segs, rest)
  {
    var url := ['/'] + part + rest;
    assert ([seg] + segs)[1..] == segs;
    if IsParam(seg) {
      SlashAt(url, 1, 1 + |part|);
      assert url[1 + |part|..] == rest;
    } else {
      assert url[1..1 + |seg|] == seg && url[1 + |seg|..] == rest;
    }
  }

  lemma {:induction false} NoSlashNoMatch(segs: seq<string>, url: string)
    requires url != [] && url[0] != '/'
    ensures !MatchFrom(segs, url)
  {
  }

  /** A literal that is at the front of a different part is a proper beginning of it. */
  lemma {:induction false} LiteralInFront(seg: string, part: string, rest: string)
    requires GoodPart(seg) && GoodPart(part) && (rest == [] || rest[0] == '/')
    requires part != seg && HasAt(['/'] + part + rest, 1, seg)
    ensures |seg| < |part|
  {
    var url := ['/'] + part + rest;
    assert forall x :: 0 <= x < |seg| ==> url[1 + x] == url[1..1 + |seg|][x] == seg[x];
    assert forall x :: 0 <= x < |part| ==> url[1 + x] == part[x];
    assert rest != [] ==> url[1 + |part|] == rest[0] == '/';
  }

  /** A literal cannot end inside a part: what follows it must be a slash or the end. */
  lemma {:induction false} LiteralMismatch(seg: string, part: string, segs: seq<string>, rest: string)
    requires GoodPart(seg) && GoodPart(part) && (rest == [] || rest[0] == '/')
    requires !IsParam(seg) && part != seg
    ensures !MatchFrom([seg] + segs, ['/'] + part + rest)
  {
    var url := ['/'] + part + rest;
    assert ([seg] + segs)[1..] == segs;
    if HasAt(url, 1, seg) {
      LiteralInFront(seg, part, rest);
      NoSlashNoMatch(segs, url[1 + |seg|..]);
    }
  }

  /** On a path made of parts, the matcher compares segment by segment. */
  lemma {:induction false} MatchIffPartsMatch(segs: seq<string>, parts: seq<string>)
    requires GoodParts(segs) && GoodParts(parts)
    ensures MatchFrom(segs, Render(parts)) <==> PartsMatch(segs, parts)
    decreases |segs|
  {
    if segs != [] && parts != [] {
      var rest := Render(parts[1..]);
      RenderStartsWithSlash(parts[1..]);
      MatchIffPartsMatch(segs[1..], parts[1..]);
      assert segs == [segs[0]] + segs[1..] && Render(parts) == ['/'] + parts[0] + rest;
      if SegMatches(segs[0], parts[0]) {
        OneSegment(segs[0], parts[0], segs[1..], rest);
      } else {
        LiteralMismatch(segs[0], parts[0], segs[1..], rest);
      }
      assert PartsMatch(segs, parts) <==> SegMatches(segs[0], parts[0]) && PartsMatch(segs[1..], parts[1..]);
    }
  }

  /** Whatever the matcher accepts is made of parts. */
  lemma {:induction false} MatchedIsRendered(segs: seq<string>, url: string) returns (parts: seq<string>)
    requires GoodParts(segs) && MatchFrom(segs, url)
    ensures GoodParts(parts) && url == Render(parts) && PartsMatch(segs, parts)
    decreases |segs|
  {
    if segs == [] {
      parts := [];
    } else {
      var k := if IsParam(segs[0]) then SlashFrom(url, 1) else 1 + |segs[0]|;
      var rest := MatchedIsRendered(segs[1..], url[k..]);
      parts := [url[1..k]] + rest;
      assert parts[1..] == rest;
      assert url == ['/'] + url[1..k] + url[k..];
    }
  }

  lemma {:induction false} RenderIsInjective(a: seq<string>, b: seq<string>)
    requires GoodParts(a) && GoodParts(b) && Render(a) == Render(b)
    ensures a == b
    decreases |a|
  {
    if a != [] && b != [] {
      var x, y := Render(a[1..]), Render(b[1..]);
      RenderStartsWithSlash(a[1..]);
      RenderStartsWithSlash(b[1..]);
      assert Render(a)[1..] == a[0] + x && Render(b)[1..] == b[0] + y;
      SlashAt(Render(a), 1, 1 + |a[0]|);
      SlashAt(Render(b), 1, 1 + |b[0]|);
      assert a[0] == Render(a)[1..1 + |a[0]|] == b[0];
      assert x == Render(a)[1 + |a[0]|..] == y;
      RenderIsInjective(a[1..], b[1..]);
      assert a == [a[0]] + a[1..] && b == [b[0]] + b[1..];
    }
  }

  // ----- inclusion of what two routes match

  /** Everything the victim matches, the other matches too. */
  ghost predicate Includes(earlier: string, victim: string) {
    forall url :: Matches(victim, url) ==> Matches(earlier, url)
  }

  /** The sample value of a parameter happens to be a literal of the other route. */
  predicate SampleCollides(earlier: string, victim: string) {
    exists k :: 0 <= k < |Segments(victim)| && k < |Segments(earlier)|
      && IsParam(Segments(victim)[k]) && Segments(earlier)[k] == "7"
  }

  lemma {:induction false} SamplePartsAreGood(segs: seq<string>)
    requires GoodParts(segs)
    ensures GoodParts(SampleParts(segs)) && PartsMatch(segs, SampleParts(segs))
  {
  }

  /** A non-root route matches its own sample. */
  lemma {:induction false} MatchesOwnSample(path: string)
    requires Segments(path) != []
    ensures Matches(path, SampleFor(path))
  {
    var segs := Segments(path);
    SamplePartsAreGood(segs);
    MatchIffPartsMatch(segs, SampleParts(segs));
  }

  /** What passing the sample test says about the segments of the two routes. */
  lemma {:induction false} SampleTest(earlier: string, victim: string)
    requires Segments(victim) != []
    ensures Matches(earlier, SampleFor(victim)) <==> PartsMatch(Segments(earlier), SampleParts(Segments(victim)))
  {
    SamplePartsAreGood(Segments(victim));
    MatchIffPartsMatch(Segments(earlier), SampleParts(Segments(victim)));
  }

  /**
   * One sample decides inclusion. For a non-root victim, the earlier route matches
   * everything the victim does exactly when it matches the victim's sample and no
   * literal `7` of it stands where the victim has a parameter.
   */
  lemma {:induction false} SampleDecidesInclusion(earlier: string, victim: string)
    requires Segments(victim) != []
    ensures Includes(earlier, victim) <==> Matches(earlier, SampleFor(victim)) && !SampleCollides(earlier, victim)
  {
    hide Segments, SampleFor, Matches, SampleParts;
    SampleTest(earlier, victim);
    if Matches(earlier, SampleFor(victim)) && !SampleCollides(earlier, victim) {
      forall url | Matches(victim, url)
        ensures Matches(earlier, url)
      {
        InclusionFromSample(earlier, victim, url);
      }
    }
    if Includes(earlier, victim) {
      MatchesOwnSample(victim);
      if SampleCollides(earlier, victim) {
        var k :| 0 <= k < |Segments(victim)| && k < |Segments(earlier)|
          && IsParam(Segments(victim)[k]) && Segments(earlier)[k] == "7";
        OtherValueEscapes(earlier, victim, k);
      }
    }
  }

  lemma {:induction false} InclusionFromSample(earlier: string, victim: string, url: string)
    requires Matches(victim, url) && !SampleCollides(earlier, victim)
    requires PartsMatch(Segments(earlier), SampleParts(Segments(victim)))
    ensures Matches(earlier, url)
  {
    hide Segments;
    var v, e := Segments(victim), Segments(earlier);
    var parts := MatchedIsRendered(v, url);
    forall k | 0 <= k < |e|
      ensures SegMatches(e[k], parts[k])
    {
      assert SegMatches(e[k], SampleParts(v)[k]) && SegMatches(v[k], parts[k]);
    }
    MatchIffPartsMatch(e, parts);
  }

  /** With another value for the parameter the victim still matches, and the earlier route does not. */
  lemma {:induction false} OtherValueEscapes(earlier: string, victim: string, k: nat)
    requires k < |Segments(victim)| && k < |Segments(earlier)|
    requires IsParam(Segments(victim)[k]) && Segments(earlier)[k] == "7"
    ensures !Includes(earlier, victim)
  {
    hide Segments;
    var v, e := Segments(victim), Segments(earlier);
    SamplePartsAreGood(v);
    var parts := SampleParts(v)[k := "8"];
    assert SegMatches(v[k], parts[k]) && !SegMatches(e[k], parts[k]);
    assert forall x :: 0 <= x < |v| && x != k ==> parts[x] == SampleParts(v)[x];
    MatchIffPartsMatch(v, parts);
    MatchIffPartsMatch(e, parts);
    assert Matches(victim, Render(parts)) && !Matches(earlier, Render(parts));
  }

  // ----- reading a path of two segments

  lemma {:induction false} SplitPlain(s: string, rest: string)
    requires '/' !in s && (rest == [] || rest[0] == '/')
    ensures Split(s + rest, '/') == [s] + Split(rest, '/')[1..]
    decreases |s|
  {
    if s == [] {
      assert s + rest == rest;
      if rest != [] {
        assert Split(rest, '/') == [[]] + Split(rest[1..], '/');
      }
    } else {
      SplitPlain(s[1..], rest);
      var tail := Split(rest, '/')[1..];
      assert (s + rest)[1..] == s[1..] + rest;
      assert ([s[1..]] + tail)[1..] == tail && [s[0]] + s[1..] == s;
    }
  }

  lemma {:induction false} TwoSegments(a: string, b: string)
    requires GoodPart(a) && GoodPart(b)
    ensures Segments(['/'] + a + ['/'] + b) == [a, b]
  {
    var s := ['/'] + a + ['/'] + b;
    assert s[1..] == a + (['/'] + b);
    SplitPlain(b, []);
    assert b + [] == b && Split([], '/') == [[]];
    assert (['/'] + b)[1..] == b;
    assert Split(['/'] + b, '/') == [[]] + Split(b, '/');
    SplitPlain(a, ['/'] + b);
    assert Split(s, '/') == [[]] + [a] + [b];
    assert NonEmpty([b]) == [b] by { assert [b][1..] == []; }
    assert NonEmpty([a, b]) == [a, b] by { assert [a, b][1..] == [b]; }
    assert ([[]] + [a] + [b])[1..] == [a, b];
  }

  // ----- the full path of a mounted route

  /** `replace(/\/{2,}/g, '/')`. */
  function Collapse(s: string): (t: string) {
    if s == [] then []
    else if |s| >= 2 && s[0] == '/' && s[1] == '/' then Collapse(s[1..])
    else [s[0]] + Collapse(s[1..])
  }

  /** `replace(/(.)\/$/, '$1')`: a slash at the end goes, unless it stands alone. */
  function DropLastSlash(s: string): (t: string) {
    if |s| >= 2 && s[|s| - 1] == '/' && !EndsLine(s[|s| - 2]) then s[..|s| - 1] else s
  }

  function FullPath(prefix: string, path: string): (full: string) {
    DropLastSlash(Collapse(prefix + (if path != [] && path[0] == '/' then [] else "/") + path))
  }

  lemma {:induction false} CollapseKeepsSegments(s: string)
    ensures NonEmpty(Split(Collapse(s), '/')) == NonEmpty(Split(s, '/'))
    ensures Split(Collapse(s), '/')[0] == Split(s, '/')[0]
            && NonEmpty(Split(Collapse(s), '/')[1..]) == NonEmpty(Split(s, '/')[1..])
    decreases |s|
  {
    if s != [] {
      CollapseKeepsSegments(s[1..]);
      var rest, rest' := Split(s[1..], '/'), Split(Collapse(s[1..]), '/');
      if s[0] == '/' {
        assert Split(s, '/')[1..] == rest;
        if |s| >= 2 && s[1] == '/' {
          CollapsedStartsWithSlash(s[1..]);
          assert Split(s[1..], '/')[0] == [] && Split(s, '/')[0] == [];
          assert NonEmpty(rest) == NonEmpty(rest[1..]);
        } else {
          assert ([s[0]] + Collapse(s[1..]))[1..] == Collapse(s[1..]);
          assert ([[]] + rest')[1..] == rest';
        }
      } else {
        assert ([s[0]] + Collapse(s[1..]))[1..] == Collapse(s[1..]);
        assert Split(s, '/') == [[s[0]] + rest[0]] + rest[1..];
        assert Split(Collapse(s), '/') == [[s[0]] + rest'[0]] + rest'[1..];
        assert ([[s[0]] + rest[0]] + rest[1..])[1..] == rest[1..];
        assert ([[s[0]] + rest'[0]] + rest'[1..])[1..] == rest'[1..];
      }
    }
  }

  lemma {:induction false} CollapsedStartsWithSlash(s: string)
    requires s != [] && s[0] == '/'
    ensures Split(s, '/')[0] == []
  {
  }

  lemma {:induction false} TrailingSlash(s: string)
    ensures NonEmpty(Split(s + "/", '/')) == NonEmpty(Split(s, '/'))
    ensures Split(s + "/", '/')[0] == Split(s, '/')[0]
            && NonEmpty(Split(s + "/", '/')[1..]) == NonEmpty(Split(s, '/')[1..])
    decreases |s|
  {
    if s == [] {
      assert s + "/" == "/" && "/"[1..] == [];
      assert Split("/", '/') == [[], []];
      var two: seq<string> := [[], []];
      assert two[1..] == [[]];
    } else {
      TrailingSlash(s[1..]);
      assert (s + "/")[1..] == s[1..] + "/";
      var rest, rest' := Split(s[1..], '/'), Split(s[1..] + "/", '/');
      if s[0] == '/' {
        assert ([[]] + rest)[1..] == rest && ([[]] + rest')[1..] == rest';
      } else {
        assert ([[s[0]] + rest[0]] + rest[1..])[1..] == rest[1..];
        assert ([[s[0]] + rest'[0]] + rest'[1..])[1..] == rest'[1..];
      }
    }
  }

  /** Joining and tidying a mounted path changes no segment, so neither its sample nor what it matches. */
  lemma {:induction false} FullPathKeepsSegments(prefix: string, path: string)
    ensures Segments(FullPath(prefix, path)) == Segments(prefix + "/" + path)
    ensures SampleFor(FullPath(prefix, path)) == SampleFor(prefix + "/" + path)
  {
    hide Split, NonEmpty, Collapse, SampleParts, Render;
    var joined := prefix + (if path != [] && path[0] == '/' then [] else "/") + path;
    var c := Collapse(joined);
    CollapseKeepsSegments(joined);
    if DropLastSlash(c) != c {
      TrailingSlash(c[..|c| - 1]);
      assert c[..|c| - 1] + "/" == c;
    }
    if path != [] && path[0] == '/' {
      DoubledSlash(prefix, path);
      assert joined == prefix + path;
    } else {
      assert joined == prefix + "/" + path;
    }
  }

  lemma {:induction false} DoubledSlash(prefix: string, path: string)
    requires path != [] && path[0] == '/'
    ensures NonEmpty(Split(prefix + "/" + path, '/')) == NonEmpty(Split(prefix + path, '/'))
    ensures Split(prefix + "/" + path, '/')[0] == Split(prefix + path, '/')[0]
    ensures NonEmpty(Split(prefix + "/" + path, '/')[1..]) == NonEmpty(Split(prefix + path, '/')[1..])
    decreases |prefix|
  {
    if prefix == [] {
      assert prefix + "/" + path == "/" + path && prefix + path == path;
      assert ("/" + path)[1..] == path;
      assert Split("/" + path, '/') == [[]] + Split(path, '/');
      assert ([[]] + Split(path, '/'))[1..] == Split(path, '/');
      assert Split(path, '/')[0] == [];
    } else {
      DoubledSlash(prefix[1..], path);
      assert (prefix + "/" + path)[1..] == prefix[1..] + "/" + path && (prefix + path)[1..] == prefix[1..] + path;
      var rest, rest' := Split(prefix[1..] + path, '/'), Split(prefix[1..] + "/" + path, '/');
      if prefix[0] == '/' {
        assert ([[]] + rest)[1..] == rest && ([[]] + rest')[1..] == rest';
      } else {
        assert ([[prefix[0]] + rest[0]] + rest[1..])[1..] == rest[1..];
        assert ([[prefix[0]] + rest'[0]] + rest'[1..])[1..] == rest'[1..];
      }
    }
  }
}
