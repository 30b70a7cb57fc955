/** The hand-written scanners over brackets, quotes and escapes, and the grammar they recognise. */
module Brackets {
  import opened Text

  predicate IsQuote(c: char) {
    c == '"' || c == '\'' || c == '`'
  }

  predicate IsOpener(c: char) {
    c == '(' || c == '[' || c == '{'
  }

  predicate IsCloser(c: char) {
    c == ')' || c == ']' || c == '}'
  }

  /** The closer of the same kind. */
  function CloserOf(c: char): (d: char)
    requires IsOpener(c)
  {
    if c == '(' then ')' else if c == '[' then ']' else '}'
  }

  // ----- the scanners, as the source steps through the text

  /** `splitTopLevelArgs` from index `i` on. */
  function SplitFrom(s: string, i: nat, depth: int, quote: Option<char>, current: string): (out: seq<string>)
    decreases |s| - i
  {
    if i >= |s| then (if Trim(current) == [] then [] else [Trim(current)])
    else
      var c := s[i];
      if quote.Some? then
        if c == '\\' then
          SplitFrom(s, i + 2, depth, quote, current + [c] + (if i + 1 < |s| then [s[i + 1]] else []))
        else SplitFrom(s, i + 1, depth, if c == quote.value then None else quote, current + [c])
      else if IsQuote(c) then SplitFrom(s, i + 1, depth, Some(c), current + [c])
      else
        var d := depth + (if IsOpener(c) then 1 else 0) - (if IsCloser(c) then 1 else 0);
        if c == ',' && d == 0 then [Trim(current)] + SplitFrom(s, i + 1, d, None, [])
        else SplitFrom(s, i + 1, d, None, current + [c])
  }

  method SplitTopLevelArgs(source: string) returns (out: seq<string>)
    ensures out == SplitFrom(source, 0, 0, None, [])
  {
    out := [];
    var depth := 0;
    var current: string := [];
    var quote: Option<char> := None;
    var i := 0;
    while i < |source|
      invariant 0 <= i
      invariant out + SplitFrom(source, i, depth, quote, current) == SplitFrom(source, 0, 0, None, [])
      decreases |source| - i
    {
      hide Trim;
      var c := source[i];
      if quote.Some? {
        if c == '\\' {
          current := current + [c] + (if i + 1 < |source| then [source[i + 1]] else []);
          i := i + 2;
          continue;
        }
        if c == quote.value {
          quote := None;
        }
        current := current + [c];
        i := i + 1;
        continue;
      }
      if IsQuote(c) {
        quote := Some(c);
        current := current + [c];
        i := i + 1;
        continue;
      }
      if IsOpener(c) {
        depth := depth + 1;
      }
      if IsCloser(c) {
        depth := depth - 1;
      }
      if c == ',' && depth == 0 {
        out := out + [Trim(current)];
        current := [];
        i := i + 1;
        continue;
      }
      current := current + [c];
      i := i + 1;
    }
    if Trim(current) != [] {
      out := out + [Trim(current)];
    }
  }

  /** `matchingBracket` from index `i` on; the source's -1 is `None`. */
  function BracketFrom(s: string, i: nat, depth: int, quote: Option<char>, want: char): (r: Option<nat>)
    decreases |s| - i
  {
    if i >= |s| then None
    else
      var c := s[i];
      if quote.Some? then
        if c == '\\' then BracketFrom(s, i + 2, depth, quote, want)
        else BracketFrom(s, i + 1, depth, if c == quote.value then None else quote, want)
      else if IsQuote(c) then BracketFrom(s, i + 1, depth, Some(c), want)
      else if IsOpener(c) then BracketFrom(s, i + 1, depth + 1, None, want)
      else if IsCloser(c) then
        if depth == 1 then (if c == want then Some(i) else None)
        else BracketFrom(s, i + 1, depth - 1, None, want)
      else BracketFrom(s, i + 1, depth, None, want)
  }

  method MatchingBracket(src: string, open: nat) returns (r: Option<nat>)
    ensures open < |src| && IsOpener(src[open]) ==> r == BracketFrom(src, open, 0, None, CloserOf(src[open]))
    ensures !(open < |src| && IsOpener(src[open])) ==> r == None
  {
    if open >= |src| || !IsOpener(src[open]) {
      return None;
    }
    var want := CloserOf(src[open]);
    var depth := 0;
    var quote: Option<char> := None;
    var i := open;
    while i < |src|
      invariant BracketFrom(src, i, depth, quote, want) == BracketFrom(src, open, 0, None, want)
      decreases |src| - i
    {
      var c := src[i];
      if quote.Some? {
        if c == '\\' {
          i := i + 1;
        } else if c == quote.value {
          quote := None;
        }
        i := i + 1;
        continue;
      }
      if IsQuote(c) {
        quote := Some(c);
      } else if IsOpener(c) {
        depth := depth + 1;
      } else if IsCloser(c) {
        depth := depth - 1;
        if depth == 0 {
          return if c == want then Some(i) else None;
        }
      }
      i := i + 1;
    }
    r := None;
  }

  // ----- the grammar

  datatype QuotedChar = Raw(c: char) | Escaped(c: char)

  /** A plain character, a quoted string, or a bracketed group. */
  datatype Item =
    | Plain(c: char)
    | Quoted(quote: char, body: seq<QuotedChar>)
    | Group(open: char, inner: Items, close: char)

  datatype Items = Nil | Cons(head: Item, tail: Items)

  function RenderQuoted(body: seq<QuotedChar>): (s: string) {
    if body == [] then []
    else (match body[0] case Raw(c) => [c] case Escaped(c) => ['\\', c]) + RenderQuoted(body[1..])
  }

  function RenderItem(item: Item): (s: string) {
    match item
    case Plain(c) => [c]
    case Quoted(q, body) => [q] + RenderQuoted(body) + [q]
    case Group(open, inner, close) => [open] + Render(inner) + [close]
  }

  function Render(items: Items): (s: string) {
    match items
    case Nil => []
    case Cons(head, tail) => RenderItem(head) + Render(tail)
  }

  predicate WellFormed(items: Items) {
    match items
    case Nil => true
    case Cons(head, tail) => WellFormedItem(head) && WellFormed(tail)
  }

  /** A group may close with any closer: the scanners count depth, not kinds. */
  predicate WellFormedItem(item: Item) {
    match item
    case Plain(c) => c !in {'"', '\'', '`', '(', '[', '{', ')', ']', '}'}
    case Quoted(q, body) =>
      && q in {'"', '\'', '`'}
      && forall x :: 0 <= x < |body| && body[x].Raw? ==> body[x].c != q && body[x].c != '\\'
    case Group(open, inner, close) => open in {'(', '[', '{'} && close in {')', ']', '}'} && WellFormed(inner)
  }

  predicate NoTopLevelComma(items: Items) {
    match items
    case Nil => true
    case Cons(head, tail) => head != Plain(',') && NoTopLevelComma(tail)
  }

  lemma {:induction false} AtSplit(s: string, i: nat, a: string, b: string)
    requires HasAt(s, i, a + b)
    ensures HasAt(s, i, a) && HasAt(s, i + |a|, b)
  {
    assert s[i..i + |a|] == (a + b)[..|a|] == a;
    assert s[i + |a|..i + |a| + |b|] == (a + b)[|a|..] == b;
  }

  lemma {:induction false} GroupShape(s: string, i: nat, open: char, r: string, close: char)
    requires HasAt(s, i, [open] + r + [close])
    ensures i + |r| + 1 < |s| && s[i] == open && HasAt(s, i + 1, r) && s[i + 1 + |r|] == close
  {
    assert [open] + r + [close] == [open] + (r + [close]);
    AtSplit(s, i, [open], r + [close]);
    AtSplit(s, i + 1, r, [close]);
  }

  // ----- splitting

  lemma {:induction false} SplitQuoted(s: string, i: nat, depth: int, q: char, current: string, body: seq<QuotedChar>)
    requires HasAt(s, i, RenderQuoted(body) + [q]) && q != '\\'
    requires forall x :: 0 <= x < |body| && body[x].Raw? ==> body[x].c != q && body[x].c != '\\'
    ensures SplitFrom(s, i, depth, Some(q), current)
         == SplitFrom(s, i + |RenderQuoted(body)| + 1, depth, None, current + RenderQuoted(body) + [q])
    decreases |body|
  {
    hide Trim;
    if body == [] {
      assert s[i] == ([] + [q])[0];
      assert current + RenderQuoted(body) == current;
    } else {
      var first := match body[0] case Raw(c) => [c] case Escaped(c) => ['\\', c];
      var rest := RenderQuoted(body[1..]);
      assert RenderQuoted(body) + [q] == first + (rest + [q]);
      AtSplit(s, i, first, rest + [q]);
      assert s[i] == first[0] && (|first| == 2 ==> s[i + 1] == first[1]);
      SplitQuoted(s, i + |first|, depth, q, current + first, body[1..]);
      assert current + first + rest + [q] == current + RenderQuoted(body) + [q];
      assert |first| == 2 ==> current + ['\\'] + [s[i + 1]] == current + first;
    }
  }

  /** Scanning a well-formed stretch brings the scanner back to where it was, with the stretch in hand. */
  lemma {:induction false} SplitItems(s: string, i: nat, depth: int, current: string, items: Items)
    requires HasAt(s, i, Render(items)) && WellFormed(items) && depth >= 0
    requires depth == 0 ==> NoTopLevelComma(items)
    ensures SplitFrom(s, i, depth, None, current)
            == SplitFrom(s, i + |Render(items)|, depth, None, current + Render(items))
    decreases items, 0
  {
    hide Trim;
    match items
    case Nil =>
      assert current + [] == current;
    case Cons(head, tail) =>
      var h := RenderItem(head);
      AtSplit(s, i, h, Render(tail));
      SplitItem(s, i, depth, current, head);
      SplitItems(s, i + |h|, depth, current + h, tail);
      assert current + h + Render(tail) == current + Render(items);
  }

  /** One character that neither opens a string nor separates arguments. */
  lemma {:induction false} SplitStep(s: string, i: nat, depth: int, current: string, d: int)
    requires i < |s| && !IsQuote(s[i]) && !(s[i] == ',' && d == 0)
    requires d == depth + (if IsOpener(s[i]) then 1 else 0) - (if IsCloser(s[i]) then 1 else 0)
    ensures SplitFrom(s, i, depth, None, current) == SplitFrom(s, i + 1, d, None, current + [s[i]])
  {
    hide Trim;
  }

  lemma {:induction false} SplitItem(s: string, i: nat, depth: int, current: string, item: Item)
    requires HasAt(s, i, RenderItem(item)) && WellFormedItem(item) && depth >= 0
    requires depth == 0 ==> item != Plain(',')
    ensures SplitFrom(s, i, depth, None, current)
            == SplitFrom(s, i + |RenderItem(item)|, depth, None, current + RenderItem(item))
    decreases item, 0
  {
    hide Trim;
    match item
    case Plain(c) =>
      assert s[i] == RenderItem(item)[0];
      SplitStep(s, i, depth, current, depth);
    case Quoted(q, body) =>
      AtSplit(s, i, [q], RenderQuoted(body) + [q]);
      assert RenderItem(item) == [q] + (RenderQuoted(body) + [q]);
      assert s[i] == RenderItem(item)[0];
      SplitQuoted(s, i + 1, depth, q, current + [q], body);
      assert current + [q] + RenderQuoted(body) + [q] == current + RenderItem(item);
    case Group(open, inner, close) =>
      SplitGroup(s, i, depth, current, open, inner, close);
  }

  lemma {:induction false} SplitGroup(s: string, i: nat, depth: int, current: string, open: char, inner: Items,
                                      close: char)
    requires IsOpener(open) && IsCloser(close) && WellFormed(inner) && depth >= 0
    requires HasAt(s, i, [open] + Render(inner) + [close])
    ensures SplitFrom(s, i, depth, None, current)
         == SplitFrom(s, i + |Render(inner)| + 2, depth, None, current + ([open] + Render(inner) + [close]))
    decreases inner, 1
  {
    hide Trim, SplitFrom, WellFormed, Render;
    var r := Render(inner);
    GroupShape(s, i, open, r, close);
    var e := i + 1 + |r|;
    SplitStep(s, i, depth, current, depth + 1);
    SplitItems(s, i + 1, depth + 1, current + [open], inner);
    SplitStep(s, e, depth + 1, current + [open] + r, depth);
    assert current + [open] + r + [close] == current + ([open] + r + [close]);
  }

  /** An argument as its author wrote it: something, without white space around it. */
  ghost predicate Trimmed(a: string) {
    a != [] && !IsSpace(a[0]) && !IsSpace(a[|a| - 1])
  }

  lemma {:induction false} TrimOfTrimmed(a: string)
    requires Trimmed(a)
    ensures Trim(a) == a && Trim(" " + a) == a
  {
    assert SkipSpace(" " + a, 1) == 1;
  }

  ghost predicate IsArgument(a: Items) {
    WellFormed(a) && NoTopLevelComma(a) && Trimmed(Render(a))
  }

  function Rendered(args: seq<Items>): (r: seq<string>)
    ensures |r| == |args|
  {
    seq(|args|, k requires 0 <= k < |args| => Render(args[k]))
  }

  /** `args.join(', ')`. */
  function Join(args: seq<Items>): (s: string) {
    if args == [] then []
    else if |args| == 1 then Render(args[0])
    else Render(args[0]) + ", " + Join(args[1..])
  }

  lemma {:induction false} SplitComma(s: string, i: nat, current: string)
    requires i < |s| && s[i] == ','
    ensures SplitFrom(s, i, 0, None, current) == [Trim(current)] + SplitFrom(s, i + 1, 0, None, [])
  {
  }

  lemma {:induction false} SplitEnd(s: string, i: nat, current: string)
    requires i == |s| && Trim(current) != []
    ensures SplitFrom(s, i, 0, None, current) == [Trim(current)]
  {
  }

  lemma {:induction false} JoinFirst(args: seq<Items>)
    requires |args| > 1
    ensures Join(args) == Render(args[0]) + (", " + Join(args[1..]))
  {
    hide Render;
  }

  lemma {:induction false} BehindFirst(s: string, i: nat, a: string, rest: string)
    requires i <= |s| && s[i..] == a + (", " + rest)
    ensures var e := i + |a|;
            e + 2 <= |s| && s[i..e] == a && s[e] == ',' && s[e + 1] == ' ' && s[e + 2..] == rest
  {
    var t := s[i..];
    assert t[..|a|] == a && t[|a|..] == ", " + rest && t[|a| + 2..] == rest;
    assert s[i + |a|] == t[|a|] && s[i + |a| + 1] == t[|a| + 1];
  }

  lemma {:induction false} SplitJoinedFrom(s: string, i: nat, lead: string, args: seq<Items>)
    requires args != [] && forall k :: 0 <= k < |args| ==> IsArgument(args[k])
    requires i <= |s| && s[i..] == Join(args) && (lead == [] || lead == " ")
    ensures SplitFrom(s, i, 0, None, lead) == Rendered(args)
    decreases |args|
  {
    hide Trim, SplitFrom, Render, WellFormed, NoTopLevelComma;
    var a := Render(args[0]);
    TrimOfTrimmed(a);
    assert [] + a == a;
    var e := i + |a|;
    if |args| == 1 {
      assert s[i..e] == a;
      SplitItems(s, i, 0, lead, args[0]);
      SplitEnd(s, e, lead + a);
      assert Rendered(args) == [a];
    } else {
      var rest := Join(args[1..]);
      JoinFirst(args);
      BehindFirst(s, i, a, rest);
      SplitItems(s, i, 0, lead, args[0]);
      SplitComma(s, e, lead + a);
      SplitStep(s, e + 1, 0, [], 0);
      assert [] + [' '] == " ";
      SplitJoinedFrom(s, e + 2, " ", args[1..]);
      assert Rendered(args) == [a] + Rendered(args[1..]);
    }
  }

  /** Splitting inverts joining, for every list of balanced, trimmed arguments without a comma at their top level. */
  lemma {:induction false} SplitInvertsJoin(args: seq<Items>)
    requires forall k :: 0 <= k < |args| ==> IsArgument(args[k])
    ensures SplitFrom(Join(args), 0, 0, None, []) == Rendered(args)
  {
    var s := Join(args);
    if args == [] {
      assert Trim([]) == [];
    } else {
      assert s[0..] == s;
      SplitJoinedFrom(s, 0, [], args);
    }
  }

  // ----- matching a bracket

  lemma {:induction false} BracketQuoted(s: string, i: nat, depth: int, q: char, want: char, body: seq<QuotedChar>)
    requires HasAt(s, i, RenderQuoted(body) + [q]) && q != '\\'
    requires forall x :: 0 <= x < |body| && body[x].Raw? ==> body[x].c != q && body[x].c != '\\'
    ensures BracketFrom(s, i, depth, Some(q), want) == BracketFrom(s, i + |RenderQuoted(body)| + 1, depth, None, want)
    decreases |body|
  {
    if body == [] {
      assert s[i] == ([] + [q])[0];
    } else {
      var first := match body[0] case Raw(c) => [c] case Escaped(c) => ['\\', c];
      var rest := RenderQuoted(body[1..]);
      assert RenderQuoted(body) + [q] == first + (rest + [q]);
      AtSplit(s, i, first, rest + [q]);
      assert s[i] == first[0];
      BracketQuoted(s, i + |first|, depth, q, want, body[1..]);
    }
  }

  lemma {:induction false} BracketItems(s: string, i: nat, depth: int, want: char, items: Items)
    requires HasAt(s, i, Render(items)) && WellFormed(items) && depth >= 1
    ensures BracketFrom(s, i, depth, None, want) == BracketFrom(s, i + |Render(items)|, depth, None, want)
    decreases items, 0
  {
    match items
    case Nil =>
    case Cons(head, tail) =>
      AtSplit(s, i, RenderItem(head), Render(tail));
      BracketItem(s, i, depth, want, head);
      BracketItems(s, i + |RenderItem(head)|, depth, want, tail);
  }

  lemma {:induction false} BracketItem(s: string, i: nat, depth: int, want: char, item: Item)
    requires HasAt(s, i, RenderItem(item)) && WellFormedItem(item) && depth >= 1
    ensures BracketFrom(s, i, depth, None, want) == BracketFrom(s, i + |RenderItem(item)|, depth, None, want)
    decreases item
  {
    match item
    case Plain(c) =>
      assert s[i] == RenderItem(item)[0];
    case Quoted(q, body) =>
      assert RenderItem(item) == [q] + (RenderQuoted(body) + [q]);
      AtSplit(s, i, [q], RenderQuoted(body) + [q]);
      assert s[i] == RenderItem(item)[0];
      BracketQuoted(s, i + 1, depth, q, want, body);
    case Group(open, inner, close) =>
      BracketGroup(s, i, depth, want, open, inner, close);
  }

  lemma {:induction false} BracketGroup(s: string, i: nat, depth: int, want: char, open: char, inner: Items,
                                        close: char)
    requires HasAt(s, i, [open] + Render(inner) + [close]) && WellFormed(inner) && depth >= 1
    requires IsOpener(open) && IsCloser(close)
    ensures BracketFrom(s, i, depth, None, want) == BracketFrom(s, i + |Render(inner)| + 2, depth, None, want)
    decreases inner, 1
  {
    hide Render, WellFormed;
    var r := Render(inner);
    GroupShape(s, i, open, r, close);
    BracketItems(s, i + 1, depth + 1, want, inner);
  }

  /**
   * The closing index is the grammar's. Over any bracketed group with nested groups,
   * strings and escapes inside, the scan ends at the group's own closer, and reports
   * it exactly when the two are `()`, `[]` or `{}`.
   */
  lemma {:induction false} MatchingBracketIsGrammar(s: string, open: nat, inner: Items, close: char)
    requires open < |s| && s[open] in {'(', '[', '{'} && close in {')', ']', '}'} && WellFormed(inner)
    requires HasAt(s, open + 1, Render(inner) + [close])
    ensures var at := open + 1 + |Render(inner)|;
            BracketFrom(s, open, 0, None, CloserOf(s[open]))
            == if [s[open], close] in {"()", "[]", "{}"} then Some(at) else None
  {
    var r := Render(inner);
    AtSplit(s, open + 1, r, [close]);
    assert s[open + 1 + |r|] == (r + [close])[|r|];
    BracketItems(s, open + 1, 1, CloserOf(s[open]), inner);
  }

  /** A group that never closes is not found. */
  lemma {:induction false} UnclosedIsNotFound(s: string, open: nat, inner: Items)
    requires open < |s| && s[open] in {'(', '[', '{'} && WellFormed(inner) && s[open + 1..] == Render(inner)
    ensures BracketFrom(s, open, 0, None, CloserOf(s[open])) == None
  {
    assert HasAt(s, open + 1, Render(inner));
    BracketItems(s, open + 1, 1, CloserOf(s[open]), inner);
  }
}
