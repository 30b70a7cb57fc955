/** Rewriting the generated regions of a hand-written document. */
module Regions {
  import opened Text

  datatype RegionError = Malformed(line: nat) | Unknown(name: string) | Unclosed(name: string, line: nat)
  datatype Rendered<T> = Ok(value: T) | Err(error: RegionError)

  type Blocks = map<string, seq<string>>

  // ----- lines

  /** Every `\r\n` becomes `\n`, in one pass. */
  function Unix(s: string): (t: string) {
    if s == "" then ""
    else if HasAt(s, 0, "\r\n") then "\n" + Unix(s[2..])
    else [s[0]] + Unix(s[1..])
  }

  // ----- markers

  const OPENING := "<!-- BEGIN GENERATED:"

  function BeginMarker(name: string): (line: string) { "<!-- BEGIN GENERATED: " + name + " -->" }

  function EndMarker(name: string): (line: string) { "<!-- END GENERATED: " + name + " -->" }

  predicate IsNameChar(c: char) {
    'A' <= c <= 'Z' || 'a' <= c <= 'z' || '0' <= c <= '9' || c == ':' || c == '_' || c == '-'
  }

  predicate IsName(s: string) {
    s != "" && forall k :: 0 <= k < |s| ==> IsNameChar(s[k])
  }

  datatype Marker = NoMarker | BadMarker | Opens(name: string)

  function MarkerOf(line: string): (m: Marker) {
    var t := Trim(line);
    if !HasAt(t, 0, OPENING) then NoMarker
    else if |t| < |OPENING| + 6 then BadMarker
    else
      var name := t[|OPENING| + 1..|t| - 4];
      if IsName(name) && t == BeginMarker(name) then Opens(name) else BadMarker
  }

  /** `lines.indexOf(line, i)`. */
  function IndexOf(lines: seq<string>, line: string, i: nat): (k: Option<nat>)
    requires i <= |lines|
    ensures k.Some? ==> i <= k.value < |lines| && lines[k.value] == line
    decreases |lines| - i
  {
    if i == |lines| then None else if lines[i] == line then Some(i) else IndexOf(lines, line, i + 1)
  }

  // ----- rendering

  function Generated(blocks: Blocks, name: string): (lines: seq<string>)
    requires name in blocks
  {
    [BeginMarker(name)] + blocks[name] + [EndMarker(name)]
  }

  function Prepend(lines: seq<string>, rest: Rendered<seq<string>>): (r: Rendered<seq<string>>) {
    match rest
    case Ok(more) => Ok(lines + more)
    case Err(e) => Err(e)
  }

  function RenderFrom(blocks: Blocks, lines: seq<string>, i: nat): (r: Rendered<seq<string>>)
    requires i <= |lines|
    decreases |lines| - i
  {
    if i == |lines| then Ok([])
    else match MarkerOf(lines[i])
      case NoMarker => Prepend([lines[i]], RenderFrom(blocks, lines, i + 1))
      case BadMarker => Err(Malformed(i))
      case Opens(name) =>
        if name !in blocks then Err(Unknown(name))
        else
          var close := IndexOf(lines, EndMarker(name), i);
          if close.None? then Err(Unclosed(name, i))
          else Prepend(Generated(blocks, name), RenderFrom(blocks, lines, close.value + 1))
  }

  function RenderFile(blocks: Blocks, source: string): (r: Rendered<string>) {
    match RenderFrom(blocks, Split(Unix(source), '\n'), 0)
    case Err(e) => Err(e)
    case Ok(lines) => Ok(if lines == [] then "" else Join(lines, '\n'))
  }

  method RenderRegions(blocks: Blocks, source: string) returns (r: Rendered<string>)
    ensures r == RenderFile(blocks, source)
  {
    hide MarkerOf, IndexOf, Generated, Join, Split, Unix;
    var lines := Split(Unix(source), '\n');
    var out: seq<string> := [];
    var i := 0;
    PrependNothing(RenderFrom(blocks, lines, 0));
    while i < |lines|
      invariant 0 <= i <= |lines|
      invariant RenderFrom(blocks, lines, 0) == Prepend(out, RenderFrom(blocks, lines, i))
    {
      match MarkerOf(lines[i]) {
        case NoMarker =>
          PrependTwice(out, [lines[i]], RenderFrom(blocks, lines, i + 1));
          out := out + [lines[i]];
        case BadMarker =>
          return Err(Malformed(i));
        case Opens(name) =>
          if name !in blocks {
            return Err(Unknown(name));
          }
          var close := IndexOf(lines, EndMarker(name), i);
          if close.None? {
            return Err(Unclosed(name, i));
          }
          PrependTwice(out, Generated(blocks, name), RenderFrom(blocks, lines, close.value + 1));
          out := out + Generated(blocks, name);
          i := close.value;
      }
      i := i + 1;
    }
    assert out + [] == out;
    r := Ok(if out == [] then "" else Join(out, '\n'));
  }

  lemma {:induction false} PrependNothing(rest: Rendered<seq<string>>)
    ensures Prepend([], rest) == rest
  {
    if rest.Ok? {
      assert [] + rest.value == rest.value;
    }
  }

  lemma {:induction false} PrependTwice(a: seq<string>, b: seq<string>, rest: Rendered<seq<string>>)
    ensures Prepend(a, Prepend(b, rest)) == Prepend(a + b, rest)
  {
    if rest.Ok? {
      assert a + (b + rest.value) == (a + b) + rest.value;
    }
  }
}
