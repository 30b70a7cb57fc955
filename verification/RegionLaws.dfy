/** Which documents are rendered, what of them is kept, and when rendering again changes nothing. */
module RegionLaws {
  import opened Text
  import opened Regions

  // ----- markers are read back

  lemma {:induction false} SkipsNothing(s: string, e: nat)
    requires e <= |s| && (e > 0 ==> !IsSpace(s[e - 1]))
    ensures TrimmedEnd(s, e) == e
  {
  }

  lemma {:induction false} TrimsToItself(s: string)
    requires s != "" && !IsSpace(s[0]) && !IsSpace(s[|s| - 1])
    ensures Trim(s) == s
  {
    SkipsNothing(s, |s|);
    assert SkipSpace(s, 0) == 0;
  }

  lemma {:induction false} BeginIsRead(name: string)
    requires IsName(name)
    ensures MarkerOf(BeginMarker(name)) == Opens(name)
  {
    var t := BeginMarker(name);
    TrimsToItself(t);
    assert t[..|OPENING|] == OPENING;
    assert t[|OPENING| + 1..|t| - 4] == name;
  }

  lemma {:induction false} EndIsNoOpening(name: string)
    ensures MarkerOf(EndMarker(name)) == NoMarker
  {
    var t := EndMarker(name);
    TrimsToItself(t);
    assert t[5] == 'E' && OPENING[5] == 'B';
  }

  lemma {:induction false} OpensNames(line: string)
    requires MarkerOf(line).Opens?
    ensures IsName(MarkerOf(line).name)
  {
  }

  // ----- documents

  /** Prose lines and regions, in order; `open` is the marker line as written. */
  datatype Doc =
    | Done
    | Prose(line: string, rest: Doc)
    | Region(open: string, name: string, body: seq<string>, rest: Doc)

  function Flatten(doc: Doc): (lines: seq<string>) {
    match doc
    case Done => []
    case Prose(line, rest) => [line] + Flatten(rest)
    case Region(open, name, body, rest) => [open] + body + [EndMarker(name)] + Flatten(rest)
  }

  /** Every region is known and ends at its first END marker. */
  ghost predicate IsDocument(blocks: Blocks, doc: Doc) {
    match doc
    case Done => true
    case Prose(line, rest) => MarkerOf(line) == NoMarker && IsDocument(blocks, rest)
    case Region(open, name, body, rest) =>
      MarkerOf(open) == Opens(name) && name in blocks && EndMarker(name) !in body && IsDocument(blocks, rest)
  }

  function Regenerate(blocks: Blocks, doc: Doc): (r: Doc)
    requires IsDocument(blocks, doc)
  {
    match doc
    case Done => Done
    case Prose(line, rest) => Prose(line, Regenerate(blocks, rest))
    case Region(_, name, _, rest) => Region(BeginMarker(name), name, blocks[name], Regenerate(blocks, rest))
  }

  /** The lines outside regions, in order. */
  function ProseOf(doc: Doc): (lines: seq<string>) {
    match doc
    case Done => []
    case Prose(line, rest) => [line] + ProseOf(rest)
    case Region(_, _, _, rest) => ProseOf(rest)
  }

  lemma {:induction false} FindsEnd(lines: seq<string>, line: string, i: nat, k: nat)
    requires i <= k < |lines| && lines[k] == line && forall j :: i <= j < k ==> lines[j] != line
    ensures IndexOf(lines, line, i) == Some(k)
    decreases k - i
  {
    if i < k {
      FindsEnd(lines, line, i + 1, k);
    }
  }

  lemma {:induction false} FirstEnd(lines: seq<string>, line: string, i: nat)
    requires i <= |lines| && IndexOf(lines, line, i).Some?
    ensures line !in lines[i..IndexOf(lines, line, i).value]
    decreases |lines| - i
  {
    if lines[i] != line {
      FirstEnd(lines, line, i + 1);
      var k := IndexOf(lines, line, i).value;
      assert lines[i..k] == [lines[i]] + lines[i + 1..k];
    }
  }

  lemma {:induction false} RenderIsRegenerate(blocks: Blocks, pre: seq<string>, doc: Doc)
    requires IsDocument(blocks, doc)
    ensures RenderFrom(blocks, pre + Flatten(doc), |pre|) == Ok(Flatten(Regenerate(blocks, doc)))
    decreases doc
  {
    hide MarkerOf, IndexOf, EndMarker, BeginMarker;
    var lines := pre + Flatten(doc);
    match doc
    case Done =>
    case Prose(line, rest) =>
      assert lines == (pre + [line]) + Flatten(rest) && lines[|pre|] == line;
      RenderIsRegenerate(blocks, pre + [line], rest);
    case Region(open, name, body, rest) =>
      var region := [open] + body + [EndMarker(name)];
      assert lines == (pre + region) + Flatten(rest);
      RegionCloses(lines, pre, open, name, body, Flatten(rest));
      RenderIsRegenerate(blocks, pre + region, rest);
      assert Flatten(Regenerate(blocks, doc)) == Generated(blocks, name) + Flatten(Regenerate(blocks, rest));
  }

  lemma {:induction false} RegionCloses(lines: seq<string>, pre: seq<string>, open: string, name: string,
                                        body: seq<string>, post: seq<string>)
    requires lines == pre + ([open] + body + [EndMarker(name)]) + post
    requires MarkerOf(open) == Opens(name) && EndMarker(name) !in body
    ensures lines[|pre|] == open && IndexOf(lines, EndMarker(name), |pre|) == Some(|pre| + 1 + |body|)
  {
    hide MarkerOf, EndMarker;
    EndIsNoOpening(name);
    forall j | |pre| <= j < |pre| + 1 + |body|
      ensures lines[j] != EndMarker(name)
    {
      assert lines[j] == if j == |pre| then open else body[j - |pre| - 1];
    }
    FindsEnd(lines, EndMarker(name), |pre|, |pre| + 1 + |body|);
  }

  /** Whatever renders is a document. */
  lemma {:induction false} RenderedIsDocument(blocks: Blocks, lines: seq<string>, i: nat) returns (doc: Doc)
    requires i <= |lines| && RenderFrom(blocks, lines, i).Ok?
    ensures IsDocument(blocks, doc) && Flatten(doc) == lines[i..]
    decreases |lines| - i
  {
    hide MarkerOf, IndexOf, EndMarker, BeginMarker;
    if i == |lines| {
      return Done;
    }
    match MarkerOf(lines[i])
    case NoMarker =>
      var rest := RenderedIsDocument(blocks, lines, i + 1);
      doc := Prose(lines[i], rest);
    case Opens(name) =>
      var close := IndexOf(lines, EndMarker(name), i).value;
      FirstEnd(lines, EndMarker(name), i);
      EndIsNoOpening(name);
      var rest := RenderedIsDocument(blocks, lines, close + 1);
      assert i < close && lines[i..close] == [lines[i]] + lines[i + 1..close];
      doc := Region(lines[i], name, lines[i + 1..close], rest);
      assert lines[i..] == [lines[i]] + lines[i + 1..close] + [lines[close]] + lines[close + 1..];
  }

  ghost predicate DocumentOf(blocks: Blocks, doc: Doc, lines: seq<string>) {
    IsDocument(blocks, doc) && Flatten(doc) == lines
  }

  /**
   * Exactly the documents are rendered: each region is replaced by its generated block, each other
   * line stays, in order.
   */
  lemma {:induction false} RendersExactlyDocuments(blocks: Blocks, lines: seq<string>)
    ensures RenderFrom(blocks, lines, 0).Ok? <==> exists doc :: DocumentOf(blocks, doc, lines)
    ensures forall doc :: DocumentOf(blocks, doc, lines) ==>
              RenderFrom(blocks, lines, 0) == Ok(Flatten(Regenerate(blocks, doc)))
    ensures forall doc :: DocumentOf(blocks, doc, lines) ==> ProseOf(Regenerate(blocks, doc)) == ProseOf(doc)
  {
    hide RenderFrom, IsDocument, Regenerate, Flatten, ProseOf;
    if RenderFrom(blocks, lines, 0).Ok? {
      var doc := RenderedIsDocument(blocks, lines, 0);
      assert lines[0..] == lines && DocumentOf(blocks, doc, lines);
    }
    forall doc | DocumentOf(blocks, doc, lines)
      ensures RenderFrom(blocks, lines, 0) == Ok(Flatten(Regenerate(blocks, doc)))
           && ProseOf(Regenerate(blocks, doc)) == ProseOf(doc)
    {
      assert [] + lines == lines;
      RenderIsRegenerate(blocks, [], doc);
      ProseIsKept(blocks, doc);
    }
  }

  lemma {:induction false} ProseIsKept(blocks: Blocks, doc: Doc)
    requires IsDocument(blocks, doc)
    ensures ProseOf(Regenerate(blocks, doc)) == ProseOf(doc)
    decreases doc
  {
    if !doc.Done? {
      ProseIsKept(blocks, doc.rest);
    }
  }

  /** What is wrong with the marker on line `k`. */
  ghost predicate Offends(blocks: Blocks, lines: seq<string>, k: nat, error: RegionError)
    requires k < |lines|
  {
    match MarkerOf(lines[k])
    case NoMarker => false
    case BadMarker => error == Malformed(k)
    case Opens(name) =>
      if name !in blocks then error == Unknown(name)
      else EndMarker(name) !in lines[k..] && error == Unclosed(name, k)
  }

  /** A file is refused for the first marker that offends, all before it being a document, and for no other reason. */
  lemma {:induction false} RefusedForAMarker(blocks: Blocks, lines: seq<string>, error: RegionError)
    ensures RenderFrom(blocks, lines, 0) == Err(error)
       <==> exists k: nat :: k < |lines| && Offends(blocks, lines, k, error) && IsVisited(blocks, lines, k)
  {
    hide RenderFrom, Offends, IsDocument;
    if RenderFrom(blocks, lines, 0) == Err(error) {
      var k, doc := OffenderOf(blocks, lines, 0, error);
      assert lines[0..k] == lines[..k];
      assert DocumentOf(blocks, doc, lines[..k]) && IsVisited(blocks, lines, k);
    }
    if k: nat :| k < |lines| && Offends(blocks, lines, k, error) && IsVisited(blocks, lines, k) {
      var doc :| DocumentOf(blocks, doc, lines[..k]);
      assert lines == [] + Flatten(doc) + lines[k..];
      StopsAtOffender(blocks, [], doc, lines[k..], error);
    }
  }

  /** The lines before `k` are a document of their own. */
  ghost predicate IsVisited(blocks: Blocks, lines: seq<string>, k: nat)
    requires k <= |lines|
  {
    exists doc :: DocumentOf(blocks, doc, lines[..k])
  }

  lemma {:induction false} EndIsMissing(lines: seq<string>, line: string, i: nat)
    requires i <= |lines|
    ensures IndexOf(lines, line, i).None? <==> line !in lines[i..]
    decreases |lines| - i
  {
    if i < |lines| {
      EndIsMissing(lines, line, i + 1);
      assert lines[i..] == [lines[i]] + lines[i + 1..];
    }
  }

  lemma {:induction false} OffendsHere(blocks: Blocks, lines: seq<string>, i: nat, error: RegionError)
    requires i < |lines|
    ensures MarkerOf(lines[i]) == BadMarker && error == Malformed(i) ==> Offends(blocks, lines, i, error)
    ensures forall name :: MarkerOf(lines[i]) == Opens(name) && name !in blocks && error == Unknown(name) ==>
              Offends(blocks, lines, i, error)
    ensures forall name ::
              && MarkerOf(lines[i]) == Opens(name) && name in blocks && EndMarker(name) !in lines[i..]
              && error == Unclosed(name, i)
              ==> Offends(blocks, lines, i, error)
  {
    hide MarkerOf, EndMarker;
  }

  lemma {:induction false} OffenderOf(blocks: Blocks, lines: seq<string>, i: nat, error: RegionError)
    returns (k: nat, doc: Doc)
    requires i <= |lines| && RenderFrom(blocks, lines, i) == Err(error)
    ensures i <= k < |lines| && Offends(blocks, lines, k, error)
    ensures IsDocument(blocks, doc) && Flatten(doc) == lines[i..k]
    decreases |lines| - i
  {
    hide MarkerOf, IndexOf, EndMarker, BeginMarker, Offends, Generated;
    OffendsHere(blocks, lines, i, error);
    match MarkerOf(lines[i])
    case BadMarker => k, doc := i, Done;
    case NoMarker =>
      var rest: Doc;
      k, rest := OffenderOf(blocks, lines, i + 1, error);
      doc := Prose(lines[i], rest);
      assert lines[i..k] == [lines[i]] + lines[i + 1..k];
    case Opens(name) =>
      EndIsMissing(lines, EndMarker(name), i);
      if name !in blocks || EndMarker(name) !in lines[i..] {
        k, doc := i, Done;
      } else {
        var close := IndexOf(lines, EndMarker(name), i).value;
        FirstEnd(lines, EndMarker(name), i);
        EndIsNoOpening(name);
        var rest: Doc;
        k, rest := OffenderOf(blocks, lines, close + 1, error);
        SliceAround(lines, i, close, k);
        doc := Region(lines[i], name, lines[i + 1..close], rest);
      }
  }

  lemma {:induction false} SliceAround(lines: seq<string>, i: nat, j: nat, k: nat)
    requires i < j < k <= |lines|
    ensures lines[i..j] == [lines[i]] + lines[i + 1..j]
    ensures lines[i..k] == [lines[i]] + lines[i + 1..j] + [lines[j]] + lines[j + 1..k]
  {
  }

  lemma {:induction false} StopsAtOffender(blocks: Blocks, pre: seq<string>, doc: Doc, post: seq<string>,
                                           error: RegionError)
    requires IsDocument(blocks, doc) && post != []
    requires var lines := pre + Flatten(doc) + post; Offends(blocks, lines, |pre + Flatten(doc)|, error)
    ensures RenderFrom(blocks, pre + Flatten(doc) + post, |pre|) == Err(error)
    decreases doc
  {
    hide MarkerOf, IndexOf, EndMarker, BeginMarker;
    var lines := pre + Flatten(doc) + post;
    match doc
    case Done =>
      match MarkerOf(lines[|pre|]) {
        case Opens(name) => EndIsMissing(lines, EndMarker(name), |pre|);
        case _ =>
      }
    case Prose(line, rest) =>
      assert pre + Flatten(doc) == (pre + [line]) + Flatten(rest) && lines[|pre|] == line;
      StopsAtOffender(blocks, pre + [line], rest, post, error);
    case Region(open, name, body, rest) =>
      var region := [open] + body + [EndMarker(name)];
      assert pre + Flatten(doc) == (pre + region) + Flatten(rest);
      assert lines == pre + region + (Flatten(rest) + post);
      RegionCloses(lines, pre, open, name, body, Flatten(rest) + post);
      StopsAtOffender(blocks, pre + region, rest, post, error);
  }

  // ----- rendering again

  /** No generated body has its own END marker as a line. */
  ghost predicate Stable(blocks: Blocks) {
    forall name :: name in blocks && IsName(name) ==> EndMarker(name) !in blocks[name]
  }

  ghost predicate SettlesAtOnce(blocks: Blocks, lines: seq<string>) {
    match RenderFrom(blocks, lines, 0)
    case Err(_) => true
    case Ok(out) => RenderFrom(blocks, out, 0) == Ok(out)
  }

  lemma {:induction false} RegeneratedIsDocument(blocks: Blocks, doc: Doc)
    requires Stable(blocks) && IsDocument(blocks, doc)
    ensures IsDocument(blocks, Regenerate(blocks, doc))
    ensures Regenerate(blocks, Regenerate(blocks, doc)) == Regenerate(blocks, doc)
    decreases doc
  {
    hide MarkerOf, EndMarker, BeginMarker;
    match doc
    case Done =>
    case Prose(_, rest) => RegeneratedIsDocument(blocks, rest);
    case Region(open, name, _, rest) =>
      OpensNames(open);
      BeginIsRead(name);
      RegeneratedIsDocument(blocks, rest);
  }

  /** Rendering twice is rendering once, on every file, if and only if no generated body holds its own END marker. */
  lemma {:induction false} IdempotentIffStable(blocks: Blocks)
    ensures (forall lines :: SettlesAtOnce(blocks, lines)) <==> Stable(blocks)
  {
    hide RenderFrom, IsDocument, Regenerate, Flatten;
    if Stable(blocks) {
      forall lines
        ensures SettlesAtOnce(blocks, lines)
      {
        if RenderFrom(blocks, lines, 0).Ok? {
          var doc := RenderedIsDocument(blocks, lines, 0);
          assert [] + lines == lines == lines[0..];
          RenderIsRegenerate(blocks, [], doc);
          RegeneratedIsDocument(blocks, doc);
          var again := Regenerate(blocks, doc);
          assert [] + Flatten(again) == Flatten(again);
          RenderIsRegenerate(blocks, [], again);
        }
      }
    }
    if name :| name in blocks && IsName(name) && EndMarker(name) in blocks[name] {
      UnstableGrows(blocks, name);
      assert !SettlesAtOnce(blocks, [BeginMarker(name), EndMarker(name)]);
    }
  }

  /** A body that holds its own END marker closes early, and what is left of it is copied once more. */
  lemma {:induction false} UnstableGrows(blocks: Blocks, name: string)
    requires name in blocks && IsName(name) && EndMarker(name) in blocks[name]
    ensures var out := Generated(blocks, name);
            && RenderFrom(blocks, [BeginMarker(name), EndMarker(name)], 0) == Ok(out)
            && RenderFrom(blocks, out, 0) != Ok(out)
  {
    hide MarkerOf, EndMarker, BeginMarker, IndexOf, RenderFrom;
    var lines, out := [BeginMarker(name), EndMarker(name)], Generated(blocks, name);
    BeginIsRead(name);
    EmptyRegionRenders(blocks, name, lines);
    var p :| 0 <= p < |blocks[name]| && blocks[name][p] == EndMarker(name);
    assert out[p + 1] == EndMarker(name) && out[0] == BeginMarker(name);
    EarlyClose(blocks, name, out, p + 1);
  }

  lemma {:induction false} EmptyRegionRenders(blocks: Blocks, name: string, lines: seq<string>)
    requires name in blocks && IsName(name) && lines == [BeginMarker(name), EndMarker(name)]
    ensures RenderFrom(blocks, lines, 0) == Ok(Generated(blocks, name))
  {
    hide MarkerOf, EndMarker, BeginMarker, IndexOf, RenderFrom;
    BeginIsRead(name);
    var doc := Region(BeginMarker(name), name, [], Done);
    assert [] + lines == lines == Flatten(doc);
    RenderIsRegenerate(blocks, [], doc);
    assert Flatten(Regenerate(blocks, doc)) == Generated(blocks, name) + [] == Generated(blocks, name);
  }

  lemma {:induction false} EarlyClose(blocks: Blocks, name: string, out: seq<string>, k: nat)
    requires name in blocks && out != [] && MarkerOf(out[0]) == Opens(name)
    requires 0 < k < |out| - 1 && out[k] == EndMarker(name) && |out| == |Generated(blocks, name)|
    ensures RenderFrom(blocks, out, 0) != Ok(out)
  {
    hide MarkerOf, EndMarker, IndexOf, Generated;
    EndIsMissing(out, EndMarker(name), 0);
    var close := IndexOf(out, EndMarker(name), 0).value;
    NotAfter(out, EndMarker(name), 0, k);
    SomethingIsRendered(blocks, out, close + 1);
  }

  lemma {:induction false} NotAfter(lines: seq<string>, line: string, i: nat, k: nat)
    requires i <= k < |lines| && lines[k] == line
    ensures IndexOf(lines, line, i).Some? && IndexOf(lines, line, i).value <= k
    decreases k - i
  {
    if lines[i] != line {
      NotAfter(lines, line, i + 1, k);
    }
  }

  lemma {:induction false} SomethingIsRendered(blocks: Blocks, lines: seq<string>, i: nat)
    requires i < |lines|
    ensures RenderFrom(blocks, lines, i) != Ok([])
  {
    hide MarkerOf, IndexOf;
  }
}
