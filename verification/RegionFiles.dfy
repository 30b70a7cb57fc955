/** Rendering whole files: splitting into lines, carriage returns, and the file that is written back. */
module RegionFiles {
  import opened Text
  import opened Regions
  import opened RegionLaws

  predicate OneLine(line: string) {
    '\n' !in line
  }

  // ----- carriage returns

  function DropCR(line: string): (r: string) {
    if line != "" && line[|line| - 1] == '\r' then line[..|line| - 1] else line
  }

  /** Every line but the last one loses one trailing `\r`. */
  function DropCRs(lines: seq<string>): (r: seq<string>)
    ensures |r| == |lines|
  {
    if |lines| <= 1 then lines else [DropCR(lines[0])] + DropCRs(lines[1..])
  }

  lemma {:induction false} UnixByLine(s: string)
    ensures Split(Unix(s), '\n') == DropCRs(Split(s, '\n'))
    decreases |s|
  {
    if s == "" {
    } else if HasAt(s, 0, "\r\n") {
      var t := s[2..];
      UnixByLine(t);
      assert s == "\r" + "\n" + t && "\n" + Unix(t) == "" + "\n" + Unix(t);
      SplitHead("\r", t, '\n');
      SplitHead("", Unix(t), '\n');
      assert (["\r"] + Split(t, '\n'))[1..] == Split(t, '\n') && DropCR("\r") == "";
    } else {
      var t, c := s[1..], s[0];
      UnixByLine(t);
      assert Unix(s) == [c] + Unix(t) && (Unix(s))[1..] == Unix(t);
      if c == '\n' {
        assert ([""] + Split(t, '\n'))[1..] == Split(t, '\n');
      } else {
        OneMore(s, c, t);
      }
    }
  }

  lemma {:induction false} OneMore(s: string, c: char, t: string)
    requires s == [c] + t && c != '\n' && !HasAt(s, 0, "\r\n")
    ensures DropCRs([[c] + Split(t, '\n')[0]] + Split(t, '\n')[1..])
            == [[c] + DropCRs(Split(t, '\n'))[0]] + DropCRs(Split(t, '\n'))[1..]
  {
    var r := Split(t, '\n');
    var joined := [[c] + r[0]] + r[1..];
    assert joined[1..] == r[1..];
    if |r| > 1 {
      if r[0] == "" {
        NotAtOnce(s, c, t);
      } else {
        assert DropCR([c] + r[0]) == [c] + DropCR(r[0]);
      }
    }
  }

  lemma {:induction false} NotAtOnce(s: string, c: char, t: string)
    requires s == [c] + t && c != '\n' && !HasAt(s, 0, "\r\n")
    requires |Split(t, '\n')| > 1 && Split(t, '\n')[0] == ""
    ensures c != '\r'
  {
    assert t != "" && t[0] == '\n';
    assert s[0..2] == [c, '\n'];
  }

  lemma {:induction false} SkipsTheSame(s: string, i: nat)
    requires i <= |s|
    ensures SkipSpace(s + "\r", i) == if SkipSpace(s, i) == |s| then |s| + 1 else SkipSpace(s, i)
    decreases |s| - i
  {
    if i < |s| && IsSpace(s[i]) {
      SkipsTheSame(s, i + 1);
    }
  }

  lemma {:induction false} EndsTheSame(s: string, e: nat)
    requires e <= |s|
    ensures TrimmedEnd(s + "\r", e) == TrimmedEnd(s, e)
    decreases e
  {
    if e > 0 {
      EndsTheSame(s, e - 1);
    }
  }

  lemma {:induction false} AllSpace(s: string, e: nat)
    requires e <= |s| && forall k :: 0 <= k < e ==> IsSpace(s[k])
    ensures TrimmedEnd(s, e) == 0
    decreases e
  {
    if e > 0 {
      AllSpace(s, e - 1);
    }
  }

  lemma {:induction false} MarkerIgnoresCR(line: string)
    ensures MarkerOf(DropCR(line)) == MarkerOf(line)
  {
    var s := DropCR(line);
    if s != line {
      assert line == s + "\r";
      SkipsTheSame(s, 0);
      EndsTheSame(s, |s|);
      if SkipSpace(s, 0) == |s| {
        AllSpace(s, |s|);
      }
      assert Trim(line) == Trim(s);
    }
  }

  // ----- the written file

  /** Generated bodies are plain lines. */
  ghost predicate PlainBlocks(blocks: Blocks) {
    forall name :: name in blocks ==> PlainLines(blocks[name])
  }

  ghost predicate PlainLines(lines: seq<string>) {
    forall k :: 0 <= k < |lines| ==> OneLine(lines[k]) && DropCR(lines[k]) == lines[k]
  }

  /** A line outside regions, not the last of the file, that still ends with `\r`. */
  predicate KeepsCR(doc: Doc) {
    match doc
    case Done => false
    case Prose(line, rest) => (!rest.Done? && DropCR(line) != line) || KeepsCR(rest)
    case Region(_, _, _, rest) => KeepsCR(rest)
  }

  function DropFrom(doc: Doc): (r: Doc) {
    match doc
    case Done => Done
    case Prose(line, rest) => Prose(if rest.Done? then line else DropCR(line), DropFrom(rest))
    case Region(open, name, body, rest) => Region(open, name, body, DropFrom(rest))
  }

  ghost predicate Fresh(blocks: Blocks, doc: Doc) {
    match doc
    case Done => true
    case Prose(_, rest) => Fresh(blocks, rest)
    case Region(open, name, body, rest) =>
      IsName(name) && open == BeginMarker(name) && name in blocks && body == blocks[name] && Fresh(blocks, rest)
  }

  lemma {:induction false} RegeneratedIsFresh(blocks: Blocks, doc: Doc)
    requires IsDocument(blocks, doc)
    ensures Fresh(blocks, Regenerate(blocks, doc))
    ensures KeepsCR(Regenerate(blocks, doc)) == KeepsCR(doc)
    decreases doc
  {
    hide MarkerOf, BeginMarker, EndMarker;
    if !doc.Done? {
      RegeneratedIsFresh(blocks, doc.rest);
      if doc.Region? {
        OpensNames(doc.open);
      }
    }
  }

  lemma {:induction false} MarkersKeepEnds(name: string)
    requires IsName(name)
    ensures DropCR(BeginMarker(name)) == BeginMarker(name) && DropCR(EndMarker(name)) == EndMarker(name)
    ensures OneLine(BeginMarker(name)) && OneLine(EndMarker(name))
  {
  }

  lemma {:induction false} DropAppend(a: seq<string>, b: seq<string>)
    requires PlainLines(a)
    ensures DropCRs(a + b) == a + DropCRs(b)
  {
    hide DropCR, PlainLines, DropCRs;
    if a == [] {
      assert a + b == b && a + DropCRs(b) == DropCRs(b);
    } else {
      PlainTail(a);
      DropAppend(a[1..], b);
      assert a + b == [a[0]] + (a[1..] + b);
      DropHead(a[0], a[1..] + b);
      assert [a[0]] + (a[1..] + DropCRs(b)) == a + DropCRs(b);
    }
  }

  lemma {:induction false} PlainTail(a: seq<string>)
    requires a != [] && PlainLines(a)
    ensures DropCR(a[0]) == a[0] && PlainLines(a[1..])
  {
    hide DropCR;
  }

  lemma {:induction false} DropHead(line: string, rest: seq<string>)
    requires DropCR(line) == line
    ensures DropCRs([line] + rest) == [line] + DropCRs(rest)
  {
    hide DropCR;
    assert ([line] + rest)[1..] == rest;
  }

  lemma {:induction false} DropsInPlace(blocks: Blocks, doc: Doc)
    requires Fresh(blocks, doc) && PlainBlocks(blocks)
    ensures DropCRs(Flatten(doc)) == Flatten(DropFrom(doc))
    decreases doc
  {
    hide DropCR, BeginMarker, EndMarker;
    match doc
    case Done =>
    case Prose(line, rest) =>
      DropsInPlace(blocks, rest);
      SomeLines(rest);
      assert ([line] + Flatten(rest))[1..] == Flatten(rest);
    case Region(open, name, body, rest) =>
      DropsInPlace(blocks, rest);
      MarkersKeepEnds(name);
      DropAppend([open] + body + [EndMarker(name)], Flatten(rest));
  }

  lemma {:induction false} SomeLines(doc: Doc)
    ensures Flatten(doc) == [] <==> doc.Done?
  {
  }

  lemma {:induction false} DropFromIsDocument(blocks: Blocks, doc: Doc)
    requires Fresh(blocks, doc) && IsDocument(blocks, doc)
    ensures Fresh(blocks, DropFrom(doc)) && IsDocument(blocks, DropFrom(doc))
    decreases doc
  {
    hide MarkerOf, DropCR, BeginMarker, EndMarker;
    if !doc.Done? {
      DropFromIsDocument(blocks, doc.rest);
      if doc.Prose? {
        MarkerIgnoresCR(doc.line);
      }
    }
  }

  lemma {:induction false} FreshIsFixed(blocks: Blocks, doc: Doc)
    requires Fresh(blocks, doc) && IsDocument(blocks, doc)
    ensures Regenerate(blocks, doc) == doc
    decreases doc
  {
    hide MarkerOf, BeginMarker, EndMarker;
    if !doc.Done? {
      FreshIsFixed(blocks, doc.rest);
    }
  }

  lemma {:induction false} DropsNothingIff(doc: Doc)
    ensures Flatten(DropFrom(doc)) == Flatten(doc) <==> !KeepsCR(doc)
    decreases doc
  {
    hide DropCR, EndMarker;
    match doc
    case Done =>
    case Prose(line, rest) =>
      DropsNothingIff(rest);
      SameTail([line], [if rest.Done? then line else DropCR(line)], Flatten(rest), Flatten(DropFrom(rest)));
    case Region(open, name, body, rest) =>
      DropsNothingIff(rest);
      var region := [open] + body + [EndMarker(name)];
      SameTail(region, region, Flatten(rest), Flatten(DropFrom(rest)));
  }

  lemma {:induction false} SameTail(a: seq<string>, b: seq<string>, x: seq<string>, y: seq<string>)
    requires |a| == |b|
    ensures b + y == a + x <==> a == b && x == y
  {
    if b + y == a + x {
      assert a == (a + x)[..|a|] == b && x == (a + x)[|a|..] == y;
    }
  }

  lemma {:induction false} PlainOutput(blocks: Blocks, doc: Doc)
    requires Fresh(blocks, doc) && PlainBlocks(blocks) && forall line :: line in ProseOf(doc) ==> OneLine(line)
    ensures forall k :: 0 <= k < |Flatten(doc)| ==> OneLine(Flatten(doc)[k])
    decreases doc
  {
    hide BeginMarker, EndMarker, OneLine, DropCR;
    match doc
    case Done =>
    case Prose(line, rest) =>
      assert ProseOf(doc)[0] == line;
      PlainOutput(blocks, rest);
    case Region(open, name, body, rest) =>
      MarkersKeepEnds(name);
      PlainOutput(blocks, rest);
  }

  lemma {:induction false} ProseIsAmongLines(doc: Doc)
    ensures forall line :: line in ProseOf(doc) ==> line in Flatten(doc)
    decreases doc
  {
    hide EndMarker;
    if !doc.Done? {
      ProseIsAmongLines(doc.rest);
    }
  }

  ghost predicate Reads(blocks: Blocks, doc: Doc, source: string) {
    DocumentOf(blocks, doc, Split(Unix(source), '\n'))
  }

  /** The file written for a document, and what rendering makes of it. */
  lemma {:induction false} WrittenFile(blocks: Blocks, source: string, doc: Doc)
    requires Stable(blocks) && PlainBlocks(blocks) && Reads(blocks, doc, source)
    ensures var written := Flatten(Regenerate(blocks, doc));
            && written != [] && RenderFile(blocks, source) == Ok(Join(written, '\n'))
            && Split(Join(written, '\n'), '\n') == written
            && RenderFile(blocks, Join(written, '\n')) == Ok(Join(Flatten(DropFrom(Regenerate(blocks, doc))), '\n'))
  {
    hide RenderFrom, IsDocument, Regenerate, Flatten, Split, Join, Unix, ProseOf, Stable, PlainBlocks, DropFrom, Fresh,
         KeepsCR;
    var lines, made := Split(Unix(source), '\n'), Regenerate(blocks, doc);
    var written := Flatten(made);
    RendersExactlyDocuments(blocks, lines);
    RegeneratedIsDocument(blocks, doc);
    RegeneratedIsFresh(blocks, doc);
    KeepsLines(blocks, source, doc);
    SplitInvertsJoin(written, '\n');
    UnixByLine(Join(written, '\n'));
    DropsInPlace(blocks, made);
    DropFromIsDocument(blocks, made);
    FreshIsFixed(blocks, DropFrom(made));
    RendersExactlyDocuments(blocks, Flatten(DropFrom(made)));
    assert DocumentOf(blocks, DropFrom(made), Flatten(DropFrom(made)));
    assert |Flatten(DropFrom(made))| == |written|;
  }

  lemma {:induction false} SplitIsLines(s: string)
    ensures Split(s, '\n') != [] && forall k :: 0 <= k < |Split(s, '\n')| ==> OneLine(Split(s, '\n')[k])
  {
  }

  lemma {:induction false} KeepsLines(blocks: Blocks, source: string, doc: Doc)
    requires PlainBlocks(blocks) && Reads(blocks, doc, source)
    ensures var written := Flatten(Regenerate(blocks, doc));
            written != [] && forall k :: 0 <= k < |written| ==> OneLine(written[k])
  {
    hide Unix, OneLine, PlainBlocks, MarkerOf;
    SplitIsLines(Unix(source));
    ProseIsAmongLines(doc);
    RegeneratedIsFresh(blocks, doc);
    ProseIsKept(blocks, doc);
    var prose := ProseOf(Regenerate(blocks, doc));
    forall line | line in prose
      ensures OneLine(line)
    {
      assert line in Flatten(doc);
    }
    PlainOutput(blocks, Regenerate(blocks, doc));
    assert !doc.Done?;
  }

  /**
   * With plain, stable blocks the written file always renders, and renders to itself if and
   * only if no line that was kept ends with a carriage return.
   */
  lemma {:induction false} WrittenFileIsFixedIff(blocks: Blocks, source: string, doc: Doc)
    requires Stable(blocks) && PlainBlocks(blocks) && Reads(blocks, doc, source)
    ensures RenderFile(blocks, source).Ok? && RenderFile(blocks, RenderFile(blocks, source).value).Ok?
    ensures RenderFile(blocks, RenderFile(blocks, source).value) == RenderFile(blocks, source) <==> !KeepsCR(doc)
  {
    hide RenderFile, IsDocument, Regenerate, Flatten, Split, Join, Unix, Stable, PlainBlocks, DropFrom, Fresh, KeepsCR;
    var made := Regenerate(blocks, doc);
    WrittenFile(blocks, source, doc);
    RegeneratedIsFresh(blocks, doc);
    DropsNothingIff(made);
    KeepsLines(blocks, source, doc);
    DroppedLines(blocks, made);
    SplitInvertsJoin(Flatten(DropFrom(made)), '\n');
  }

  lemma {:induction false} DroppedLines(blocks: Blocks, doc: Doc)
    requires Fresh(blocks, doc) && PlainBlocks(blocks) && Flatten(doc) != []
    requires forall k :: 0 <= k < |Flatten(doc)| ==> OneLine(Flatten(doc)[k])
    ensures Flatten(DropFrom(doc)) != []
    ensures forall k :: 0 <= k < |Flatten(DropFrom(doc))| ==> OneLine(Flatten(DropFrom(doc))[k])
  {
    hide Flatten, Fresh, PlainBlocks, DropCRs;
    DropsInPlace(blocks, doc);
    DropKeepsOneLine(Flatten(doc));
  }

  lemma {:induction false} DropKeepsOneLine(lines: seq<string>)
    requires forall k :: 0 <= k < |lines| ==> OneLine(lines[k])
    ensures forall k :: 0 <= k < |lines| ==> OneLine(DropCRs(lines)[k])
  {
    if |lines| > 1 {
      DropKeepsOneLine(lines[1..]);
    }
  }

  /** A doubled carriage return survives the first pass and not the second. */
  lemma {:induction false} DoubledReturnNeedsTwoPasses(blocks: Blocks)
    requires Stable(blocks) && PlainBlocks(blocks)
    ensures RenderFile(blocks, "a\r\r\nb") == Ok("a\r\nb") && RenderFile(blocks, "a\r\nb") == Ok("a\nb")
  {
    hide RenderFile, RenderFrom;
    Returned(blocks, "a\r\r\nb", "a\r\nb", "a\r");
    Returned(blocks, "a\r\nb", "a\nb", "a");
  }

  lemma {:induction false} Returned(blocks: Blocks, source: string, unix: string, first: string)
    requires first in {"a", "a\r"} && unix == first + "\n" + "b" && source == first + "\r\n" + "b"
    ensures RenderFile(blocks, source) == Ok(unix)
  {
    hide RenderFrom, Split, MarkerOf;
    UnixStep(source, first, unix);
    SplitHead(first, "b", '\n');
    SplitHead("b", "", '\n');
    var doc := Prose(first, Prose("b", Done));
    ShortIsProse(first);
    ShortIsProse("b");
    var last := Prose("b", Done);
    assert IsDocument(blocks, last) && Regenerate(blocks, last) == last;
    assert Flatten(last) == ["b"] && Flatten(doc) == [first] + ["b"];
    RendersExactlyDocuments(blocks, [first, "b"]);
    assert DocumentOf(blocks, doc, [first, "b"]);
    assert Regenerate(blocks, doc) == doc;
    assert Split(unix, '\n') == [first, "b"] && [first, "b"][1..] == ["b"];
    assert Join(["b"], '\n') == "b" && Join([first, "b"], '\n') == unix;
  }

  lemma {:induction false} UnixStep(source: string, first: string, unix: string)
    requires first in {"a", "a\r"} && unix == first + "\n" + "b" && source == first + "\r\n" + "b"
    ensures Unix(source) == unix
  {
    assert Unix("b") == "b" + Unix("") == "b";
    assert Unix("\r\nb") == "\n" + Unix("\r\nb"[2..]) && "\r\nb"[2..] == "b";
    if first == "a" {
      assert source[1..] == "\r\nb";
    } else {
      assert source[1..] == "\r\r\nb" && source[1..][1..] == "\r\nb";
      assert !HasAt("\r\r\nb", 0, "\r\n") by { assert "\r\r\nb"[0..2][1] == '\r'; }
      assert !HasAt(source, 0, "\r\n") by { assert source[0..2][0] == 'a'; }
    }
  }

  lemma {:induction false} ShortIsProse(line: string)
    requires |line| < 5
    ensures MarkerOf(line) == NoMarker
  {
  }
}
