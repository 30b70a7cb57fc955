/** The full path of a mounted route, written out: one slash before each segment and none behind the last. */
module FullPaths {
  import opened Text
  import opened Paths

  /** What collapsing leaves of a slash and the parts behind it. */
  function Tail(parts: seq<string>): (t: string) {
    if parts == [] then ""
    else if NonEmpty(parts) == [] then "/"
    else Render(NonEmpty(parts)) + (if parts[|parts| - 1] == [] then "/" else "")
  }

  lemma {:induction false} TailSkips(parts: seq<string>)
    requires |parts| >= 2 && parts[0] == []
    ensures Tail(parts) == Tail(parts[1..])
  {
    assert NonEmpty(parts) == NonEmpty(parts[1..]);
    assert parts[1..][|parts| - 2] == parts[|parts| - 1];
  }

  lemma {:induction false} TailTakes(parts: seq<string>)
    requires parts != [] && parts[0] != []
    ensures Tail(parts) == "/" + parts[0] + Tail(parts[1..])
  {
    var more := NonEmpty(parts[1..]);
    var all := [parts[0]] + more;
    assert NonEmpty(parts) == all && all[1..] == more && all[0] == parts[0];
    assert Render(all) == "/" + parts[0] + Render(more);
    if |parts| >= 2 {
      assert parts[1..][|parts| - 2] == parts[|parts| - 1];
      if more == [] {
        LastIsEmpty(parts[1..]);
      }
    } else {
      assert parts[1..] == [];
    }
  }

  lemma {:induction false} LastIsEmpty(parts: seq<string>)
    requires parts != [] && NonEmpty(parts) == []
    ensures parts[|parts| - 1] == []
    decreases |parts|
  {
    if |parts| > 1 {
      LastIsEmpty(parts[1..]);
    }
  }

  lemma {:induction false} CollapseIs(s: string)
    ensures Collapse(s) == Split(s, '/')[0] + Tail(Split(s, '/')[1..])
    decreases |s|
  {
    hide Tail;
    if s == [] {
      assert Split(s, '/')[1..] == [] && Tail([]) == "" by { TailOfNothing(); }
    } else {
      var rest := Split(s[1..], '/');
      CollapseIs(s[1..]);
      if s[0] != '/' {
        assert ([[s[0]] + rest[0]] + rest[1..])[1..] == rest[1..];
      } else {
        assert ([[]] + rest)[1..] == rest;
        if |s| == 1 {
          assert s[1..] == [] && rest == [[]];
          TailOfBlank();
        } else if s[1] == '/' {
          TailSkips(rest);
        } else {
          TailTakes(rest);
        }
      }
    }
  }

  lemma {:induction false} TailOfNothing()
    ensures Tail([]) == ""
  {
  }

  lemma {:induction false} TailOfBlank()
    ensures Tail([[]]) == "/"
  {
    var none: seq<string> := [[]];
    assert none[1..] == [] && NonEmpty(none) == [];
  }

  lemma {:induction false} RenderEnds(parts: seq<string>)
    requires parts != [] && GoodParts(parts)
    ensures var r, p := Render(parts), parts[|parts| - 1]; |r| >= 2 && r[|r| - 1] == p[|p| - 1] && p[|p| - 1] != '/'
    decreases |parts|
  {
    assert GoodPart(parts[0]);
    if |parts| > 1 {
      assert GoodParts(parts[1..]);
      hide GoodParts, GoodPart;
      RenderEnds(parts[1..]);
    } else {
      assert parts[1..] == [];
    }
  }

  /** The last character of the last segment. */
  function LastChar(segs: seq<string>): (c: char)
    requires segs != [] && GoodParts(segs)
  {
    var p := segs[|segs| - 1];
    p[|p| - 1]
  }

  /**
   * A mounted path that begins with a slash is its segments, each behind one slash; without
   * segments it is a lone slash. A slash stays at the end only behind a line terminator.
   */
  lemma {:induction false} FullPathIs(prefix: string, path: string)
    requires prefix == "" || prefix[0] == '/'
    ensures var segs, full := Segments(prefix + "/" + path), FullPath(prefix, path);
            if segs == [] then full == "/"
            else if EndsLine(LastChar(segs)) then full == Render(segs) || full == Render(segs) + "/"
            else full == Render(segs)
  {
    hide Split, NonEmpty, Collapse, Render, DropLastSlash, LastChar;
    var joined := prefix + (if path != [] && path[0] == '/' then [] else "/") + path;
    var segs := Segments(joined);
    FullPathKeepsSegments(prefix, path);
    JoinedSegments(prefix, path, joined);
    CollapsedIs(joined);
    Dropped(Collapse(joined), segs);
  }

  lemma {:induction false} CollapsedIs(s: string)
    requires s != [] && s[0] == '/'
    ensures var segs, c := Segments(s), Collapse(s);
            if segs == [] then c == "/" else c == Render(segs) || c == Render(segs) + "/"
  {
    hide Split, NonEmpty, Collapse, Render, Tail;
    var parts := Split(s, '/');
    CollapseIs(s);
    BeginsWithSlash(s);
    TailIs(parts[1..]);
    assert [] + Tail(parts[1..]) == Tail(parts[1..]);
  }

  lemma {:induction false} Dropped(c: string, segs: seq<string>)
    requires GoodParts(segs)
    requires if segs == [] then c == "/" else c == Render(segs) || c == Render(segs) + "/"
    ensures if segs == [] then DropLastSlash(c) == "/"
            else if EndsLine(LastChar(segs)) then DropLastSlash(c) == c
            else DropLastSlash(c) == Render(segs)
  {
    hide Render, GoodParts, EndsLine;
    if segs != [] {
      RenderEnds(segs);
      assert (Render(segs) + "/")[..|Render(segs)|] == Render(segs);
    }
  }

  lemma {:induction false} TailIs(parts: seq<string>)
    requires parts != []
    ensures NonEmpty(parts) == [] ==> Tail(parts) == "/"
    ensures NonEmpty(parts) != [] ==>
              Tail(parts) == Render(NonEmpty(parts)) || Tail(parts) == Render(NonEmpty(parts)) + "/"
  {
  }

  lemma {:induction false} BeginsWithSlash(s: string)
    requires s != [] && s[0] == '/'
    ensures var parts := Split(s, '/'); parts[0] == [] && |parts| > 1 && NonEmpty(parts) == NonEmpty(parts[1..])
  {
  }

  lemma {:induction false} JoinedSegments(prefix: string, path: string, joined: string)
    requires joined == prefix + (if path != [] && path[0] == '/' then [] else "/") + path
    ensures Segments(joined) == Segments(prefix + "/" + path)
  {
    hide Split, NonEmpty;
    if path != [] && path[0] == '/' {
      DoubledSlash(prefix, path);
      assert joined == prefix + path;
    } else {
      assert joined == prefix + "/" + path;
    }
  }

  /** Two mounted paths are spelled alike exactly when they have the same segments. */
  lemma {:induction false} SameSpellingIff(prefix: string, path: string, prefix': string, path': string)
    requires (prefix == "" || prefix[0] == '/') && (prefix' == "" || prefix'[0] == '/')
    requires forall c :: c in prefix + path + prefix' + path' ==> !EndsLine(c)
    ensures FullPath(prefix, path) == FullPath(prefix', path')
       <==> Segments(prefix + "/" + path) == Segments(prefix' + "/" + path')
  {
    hide FullPath, Segments, LastChar;
    FullPathKeepsSegments(prefix, path);
    FullPathKeepsSegments(prefix', path');
    FullPathIs(prefix, path);
    FullPathIs(prefix', path');
    LastCharIn(prefix + "/" + path);
    LastCharIn(prefix' + "/" + path');
  }

  lemma {:induction false} LastCharIn(s: string)
    ensures Segments(s) != [] ==> LastChar(Segments(s)) in s
  {
    hide Split, NonEmpty;
    var parts, segs := Split(s, '/'), Segments(s);
    if segs != [] {
      var p := segs[|segs| - 1];
      assert p in parts;
      PartOf(s, p);
      assert p[|p| - 1] in p;
    }
  }

  lemma {:induction false} PartOf(s: string, p: string)
    requires p in Split(s, '/')
    ensures forall c :: c in p ==> c in s
    decreases |s|
  {
    if s != [] {
      var rest := Split(s[1..], '/');
      assert s == [s[0]] + s[1..];
      if p in rest {
        PartOf(s[1..], p);
      } else if s[0] != '/' && p == [s[0]] + rest[0] {
        PartOf(s[1..], rest[0]);
      }
    }
  }
}
