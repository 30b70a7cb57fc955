/** The markers of generated regions as they are written, and a document with one region. */
module RegionMarkers {
  import opened Text
  import opened Characters
  import opened Regions
  import opened RegionLaws

  /** Letters, digits, colons, underscores and hyphens. */
  ghost predicate NameOver(name: string) {
    name != "" && forall x :: 0 <= x < |name| ==>
      name[x] in {':', '_', '-'} || 'a' <= name[x] <= 'z' || 'A' <= name[x] <= 'Z' || '0' <= name[x] <= '9'
  }

  ghost predicate IsOpening(line: string, name: string) {
    NameOver(name) && exists before, after ::
      White(before) && White(after) && line == before + ("<!-- BEGIN GENERATED: " + name + " -->") + after
  }

  lemma {:induction false} OpeningIsRead(before: string, name: string, after: string)
    requires NameOver(name) && White(before) && White(after)
    ensures MarkerOf(before + ("<!-- BEGIN GENERATED: " + name + " -->") + after) == Opens(name)
  {
    hide Trim, White;
    var t := "<!-- BEGIN GENERATED: " + name + " -->";
    MarkerIsTrimmed(name);
    TrimIs(before, t, after);
    BeginIsRead(name);
    TrimIs("", t, "");
    assert "" + t + "" == t;
  }

  lemma {:induction false} MarkerIsTrimmed(name: string)
    ensures Trimmed("<!-- BEGIN GENERATED: " + name + " -->") && White("")
  {
    var t := "<!-- BEGIN GENERATED: " + name + " -->";
    assert t[0] == '<' && t[|t| - 1] == '>';
  }

  lemma {:induction false} OpensIsOpening(line: string, name: string)
    requires MarkerOf(line) == Opens(name)
    ensures IsOpening(line, name)
  {
    hide Trim, White;
    var before, after := TrimsBetween(line);
    assert Trim(line) == "<!-- BEGIN GENERATED: " + name + " -->";
  }

  /** A line opens the region `name` if and only if it is that marker, with white space around it. */
  lemma {:induction false} OpensIff(line: string, name: string)
    ensures MarkerOf(line) == Opens(name) <==> IsOpening(line, name)
  {
    hide MarkerOf, White;
    if MarkerOf(line) == Opens(name) {
      OpensIsOpening(line, name);
    }
    if IsOpening(line, name) {
      var before, after :|
        White(before) && White(after) && line == before + ("<!-- BEGIN GENERATED: " + name + " -->") + after;
      OpeningIsRead(before, name, after);
    }
  }

  /** A line is prose if and only if, trimmed, it does not begin as an opening. */
  lemma {:induction false} ProseIff(line: string)
    ensures MarkerOf(line) == NoMarker <==> !HasAt(Trim(line), 0, "<!-- BEGIN GENERATED:")
  {
  }

  lemma {:induction false} ProseRuns(blocks: Blocks, lines: seq<string>, i: nat, j: nat)
    requires i <= j <= |lines| && forall k :: i <= k < j ==> MarkerOf(lines[k]) == NoMarker
    ensures RenderFrom(blocks, lines, i) == Prepend(lines[i..j], RenderFrom(blocks, lines, j))
    decreases j - i
  {
    hide MarkerOf, IndexOf, EndMarker, BeginMarker;
    if i == j {
      assert lines[i..j] == [];
      PrependNothing(RenderFrom(blocks, lines, j));
    } else {
      ProseRuns(blocks, lines, i + 1, j);
      PrependTwice([lines[i]], lines[i + 1..j], RenderFrom(blocks, lines, j));
      assert [lines[i]] + lines[i + 1..j] == lines[i..j];
    }
  }

  ghost predicate AllProse(lines: seq<string>) {
    forall k :: 0 <= k < |lines| ==> !HasAt(Trim(lines[k]), 0, "<!-- BEGIN GENERATED:")
  }

  /** One region from line `n` to line `close`, with prose before and behind it. */
  lemma {:induction false} RegionRuns(blocks: Blocks, lines: seq<string>, n: nat, name: string, close: nat)
    requires n < close < |lines| && name in blocks && MarkerOf(lines[n]) == Opens(name)
    requires lines[close] == EndMarker(name) && forall k :: n <= k < close ==> lines[k] != EndMarker(name)
    requires forall k :: (0 <= k < n || close < k < |lines|) ==> MarkerOf(lines[k]) == NoMarker
    ensures RenderFrom(blocks, lines, 0) == Ok(lines[..n] + Generated(blocks, name) + lines[close + 1..])
  {
    hide MarkerOf, IndexOf, EndMarker, Generated;
    ProseRuns(blocks, lines, 0, n);
    FindsEnd(lines, EndMarker(name), n, close);
    ProseRuns(blocks, lines, close + 1, |lines|);
    var block, rest := Generated(blocks, name), lines[close + 1..];
    assert lines[0..n] == lines[..n] && lines[close + 1..|lines|] == rest && rest + [] == rest;
    assert RenderFrom(blocks, lines, close + 1) == Ok(rest);
    assert RenderFrom(blocks, lines, n) == Ok(block + rest);
    assert lines[..n] + (block + rest) == lines[..n] + block + rest;
  }

  /**
   * A document with one region: the markers are written anew without the white space around
   * them, the block replaces the body, and everything else stays.
   */
  lemma {:induction false} OneRegionRenders(blocks: Blocks, pre: seq<string>, open: string, name: string,
                                            body: seq<string>, post: seq<string>)
    requires AllProse(pre) && AllProse(post) && IsOpening(open, name) && name in blocks
    requires "<!-- END GENERATED: " + name + " -->" !in body
    ensures RenderFrom(blocks, pre + ([open] + body + ["<!-- END GENERATED: " + name + " -->"]) + post, 0)
         == Ok(pre + (["<!-- BEGIN GENERATED: " + name + " -->"] + blocks[name]
                      + ["<!-- END GENERATED: " + name + " -->"]) + post)
  {
    hide MarkerOf, IndexOf, Trim, IsOpening;
    hide MarkerOf, IndexOf, Trim, IsOpening, RenderFrom;
    var end := "<!-- END GENERATED: " + name + " -->";
    var region := [open] + body + [end];
    var lines, n := pre + region + post, |pre|;
    var close := n + |region| - 1;
    OpensIff(open, name);
    EndIsNoOpening(name);
    forall k | 0 <= k < |lines| && (k < n || close < k)
      ensures MarkerOf(lines[k]) == NoMarker
    {
      ProseIff(lines[k]);
      assert k < n ==> lines[k] == pre[k];
      assert close < k ==> lines[k] == post[k - close - 1];
    }
    assert lines[n..n + |region|] == region;
    forall k | n <= k < close
      ensures lines[k] != end
    {
      assert lines[k] == region[k - n];
      assert k > n ==> region[k - n] == body[k - n - 1];
    }
    assert lines[n] == open && lines[close] == region[|region| - 1] == end;
    RegionRuns(blocks, lines, n, name, close);
    assert lines[..n] == pre && lines[close + 1..] == post;
  }
}
