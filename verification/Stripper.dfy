/** Removing a migration's own transaction control, and what that leaves. */
module Stripper {
  import opened Text
  import opened Scanner
  import opened Masking

  // ----- the operations

  datatype Finding = Finding(line: nat, statement: string)

  /** `replace(/\s+/g, ' ')`; `after` says that white space has just been passed. */
  function Collapse(s: string, after: bool): (t: string) {
    if s == [] then []
    else if IsSpace(s[0]) then (if after then [] else [' ']) + Collapse(s[1..], true)
    else [s[0]] + Collapse(s[1..], false)
  }

  function UpperCase(s: string): (t: string)
    ensures |t| == |s|
  {
    seq(|s|, i requires 0 <= i < |s| => Upper(s[i]))
  }

  /** How a match is reported. */
  function Reported(text: string): (statement: string) {
    UpperCase(Trim(Collapse(text, false)))
  }

  /** Number of newlines before offset `k`. */
  function NewlinesBefore(s: string, k: nat): (n: nat)
    requires k <= |s|
    decreases k
  {
    if k == 0 then 0 else NewlinesBefore(s, k - 1) + (if s[k - 1] == '\n' then 1 else 0)
  }

  /** The matches of transaction control in the masked text `m`, from offset `i` on. */
  function FindingsIn(m: string, i: nat): (f: seq<Finding>)
    requires i <= |m|
    decreases |m| - i
  {
    if i == |m| then [] else
      match MatchEnd(Control, m, i)
      case Some(e) => [Finding(1 + NewlinesBefore(m, i), Reported(m[i..e]))] + FindingsIn(m, e)
      case None => FindingsIn(m, i + 1)
  }

  function Findings(sql: string): (f: seq<Finding>) {
    FindingsIn(Mask(sql), 0)
  }

  /** Which characters of `sql` stripping blanks. */
  function ControlMarks(sql: string): (c: seq<bool>)
    ensures |c| == |sql|
  {
    Marks(Control, Mask(sql))
  }

  function Strip(sql: string): (out: string)
    ensures |out| == |sql|
  {
    BlankAt(sql, ControlMarks(sql))
  }

  function Residual(sql: string): (f: seq<Finding>) {
    Findings(Strip(sql))
  }

  /** `haystack.includes(needle)`. */
  predicate Includes(haystack: string, needle: string) {
    exists k: nat :: k <= |haystack| && HasAt(haystack, k, needle)
  }

  const DESTRUCTIVE_MARKER: string := "SERVANA:DESTRUCTIVE"

  predicate DeclaresDestructive(sql: string) {
    Includes(sql, DESTRUCTIVE_MARKER)
  }

  // ----- the methods, as the source writes them

  /** `out` with the characters from `a` to `e` replaced by the blanked match text. */
  function BlankSpan(out: string, masked: string, a: nat, e: nat): (r: string)
    requires a <= e <= |masked| == |out|
    ensures |r| == |out|
  {
    out[..a] + BlankAt(masked[a..e], seq(e - a, _ => true)) + out[e..]
  }

  /** `s` with the marked characters before offset `i` blanked. */
  ghost function BlankBefore(s: string, marks: seq<bool>, i: nat): (t: string)
    requires |marks| == |s|
    ensures |t| == |s|
  {
    seq(|s|, j requires 0 <= j < |s| => if j < i && marks[j] then BlankChar(s[j]) else s[j])
  }

  lemma {:induction false} BlankBeforeEnds(s: string, marks: seq<bool>)
    requires |marks| == |s|
    ensures BlankBefore(s, marks, 0) == s
    ensures BlankBefore(s, marks, |s|) == BlankAt(s, marks)
  {
  }

  lemma {:induction false} BlankSpanExtends(s: string, masked: string, marks: seq<bool>, i: nat, e: nat)
    requires |marks| == |s| == |masked| && i <= e <= |s|
    requires forall j :: i <= j < e ==> marks[j]
    requires forall j :: 0 <= j < |s| ==> BlankChar(masked[j]) == BlankChar(s[j])
    ensures BlankSpan(BlankBefore(s, marks, i), masked, i, e) == BlankBefore(s, marks, e)
  {
  }

  lemma {:induction false} BlankStep(s: string, masked: string, i: nat)
    requires |s| == |masked| && i < |s| && Visited(Control, masked, i)
    requires forall j :: 0 <= j < |s| ==> BlankChar(masked[j]) == BlankChar(s[j])
    ensures var marks, m := Marks(Control, masked), MatchEnd(Control, masked, i);
            if m.Some? then
              && Visited(Control, masked, m.value)
              && BlankBefore(s, marks, m.value) == BlankSpan(BlankBefore(s, marks, i), masked, i, m.value)
            else
              Visited(Control, masked, i + 1) && BlankBefore(s, marks, i + 1) == BlankBefore(s, marks, i)
  {
    VisitedStep(Control, masked, i);
    if MatchEnd(Control, masked, i).Some? {
      BlankSpanExtends(s, masked, Marks(Control, masked), i, MatchEnd(Control, masked, i).value);
    }
  }

  /** Blanks one match after the other in `out`; each replacement is made from the masked text. */
  method BlankMatches(sql: string, masked: string) returns (out: string)
    requires |sql| == |masked|
    requires forall j :: 0 <= j < |sql| ==> BlankChar(masked[j]) == BlankChar(sql[j])
    ensures out == BlankAt(sql, Marks(Control, masked))
  {
    ghost var marks := Marks(Control, masked);
    BlankBeforeEnds(sql, marks);
    out := sql;
    var i := 0;
    while i < |masked|
      invariant Visited(Control, masked, i)
      invariant out == BlankBefore(sql, marks, i)
    {
      BlankStep(sql, masked, i);
      var m := MatchEnd(Control, masked, i);
      if m.Some? {
        out := BlankSpan(out, masked, i, m.value);
        i := m.value;
      } else {
        i := i + 1;
      }
    }
  }

  method StripTransactionControl(sql: string) returns (out: string)
    ensures out == Strip(sql)
  {
    var masked := Mask(sql);
    MaskFaithful(sql);
    out := BlankMatches(sql, masked);
  }

  method CollectFindings(masked: string) returns (findings: seq<Finding>)
    ensures findings == FindingsIn(masked, 0)
  {
    findings := [];
    var i := 0;
    while i < |masked|
      invariant 0 <= i <= |masked|
      invariant findings + FindingsIn(masked, i) == FindingsIn(masked, 0)
    {
      var m := MatchEnd(Control, masked, i);
      if m.Some? {
        findings := findings + [Finding(1 + NewlinesBefore(masked, i), Reported(masked[i..m.value]))];
        i := m.value;
      } else {
        i := i + 1;
      }
    }
  }

  /** Where a match begins and ends. */
  datatype Span = Span(start: nat, end: nat)

  function SpansIn(m: string, i: nat): (spans: seq<Span>)
    requires i <= |m|
    decreases |m| - i
  {
    if i == |m| then [] else
      match MatchEnd(Control, m, i)
      case Some(e) => [Span(i, e)] + SpansIn(m, e)
      case None => SpansIn(m, i + 1)
  }

  predicate InSome(spans: seq<Span>, j: nat) {
    exists k :: 0 <= k < |spans| && spans[k].start <= j < spans[k].end
  }

  /** The spans are matches, apart from one another and in order. */
  ghost predicate AreMatches(m: string, i: nat, spans: seq<Span>) {
    && (forall k :: 0 <= k < |spans| ==> i <= spans[k].start < spans[k].end <= |m|)
    && (forall k :: 0 <= k < |spans| ==> MatchEnd(Control, m, spans[k].start) == Some(spans[k].end))
    && forall k :: 0 <= k < |spans| - 1 ==> spans[k].end <= spans[k + 1].start
  }

  /** One finding for each span: the line on which it begins, and its text. */
  ghost predicate Listed(m: string, spans: seq<Span>, found: seq<Finding>) {
    |found| == |spans| && forall k :: 0 <= k < |spans| && spans[k].start <= spans[k].end <= |m| ==>
      found[k] == Finding(1 + NewlinesBefore(m, spans[k].start), Reported(m[spans[k].start..spans[k].end]))
  }

  lemma {:induction false} MatchesCons(m: string, i: nat, e: nat, spans: seq<Span>, found: seq<Finding>, f: Finding)
    requires i < |m| && MatchEnd(Control, m, i) == Some(e) && AreMatches(m, e, spans) && Listed(m, spans, found)
    requires f == Finding(1 + NewlinesBefore(m, i), Reported(m[i..e]))
    ensures AreMatches(m, i, [Span(i, e)] + spans) && Listed(m, [Span(i, e)] + spans, [f] + found)
  {
    hide MatchEnd, NewlinesBefore, Reported;
  }

  lemma {:induction false} MatchesEarlier(m: string, i: nat, spans: seq<Span>)
    requires AreMatches(m, i + 1, spans)
    ensures AreMatches(m, i, spans)
  {
    hide MatchEnd;
  }

  /**
   * The findings are the matches: one each, in order, with the line on which it begins and
   * its text, and together the matches are exactly the characters that stripping blanks.
   */
  lemma {:induction false} FindingsAreTheMatches(m: string, i: nat)
    requires i <= |m|
    ensures AreMatches(m, i, SpansIn(m, i)) && Listed(m, SpansIn(m, i), FindingsIn(m, i))
    ensures forall j :: 0 <= j < |m| ==> (Marked(Control, m, i, j) <==> InSome(SpansIn(m, i), j))
    decreases |m| - i
  {
    hide MatchEnd, NewlinesBefore, Reported, AreMatches, Listed, InSome;
    if i == |m| {
      NoMatches(m);
    } else {
      match MatchEnd(Control, m, i)
      case None =>
        FindingsAreTheMatches(m, i + 1);
        MatchesEarlier(m, i, SpansIn(m, i + 1));
        forall j | 0 <= j < |m|
          ensures Marked(Control, m, i, j) <==> InSome(SpansIn(m, i), j)
        {
          NoneBefore(m, i + 1, SpansIn(m, i + 1), j);
        }
      case Some(e) =>
        FindingsAreTheMatches(m, e);
        MatchesCons(m, i, e, SpansIn(m, e), FindingsIn(m, e), Finding(1 + NewlinesBefore(m, i), Reported(m[i..e])));
        forall j | 0 <= j < |m|
          ensures Marked(Control, m, i, j) <==> InSome(SpansIn(m, i), j)
        {
          InSomeCons(Span(i, e), SpansIn(m, e), j);
          NoneBefore(m, e, SpansIn(m, e), j);
        }
    }
  }

  lemma {:induction false} NoMatches(m: string)
    ensures AreMatches(m, |m|, []) && Listed(m, [], []) && forall j :: !InSome([], j)
  {
  }

  lemma {:induction false} NoneBefore(m: string, i: nat, spans: seq<Span>, j: nat)
    requires AreMatches(m, i, spans)
    ensures InSome(spans, j) ==> i <= j
  {
    hide MatchEnd;
  }

  lemma {:induction false} InSomeCons(s: Span, spans: seq<Span>, j: nat)
    ensures InSome([s] + spans, j) <==> s.start <= j < s.end || InSome(spans, j)
  {
    if k :| 0 <= k < |spans| && spans[k].start <= j < spans[k].end {
      assert ([s] + spans)[k + 1] == spans[k];
    }
    assert ([s] + spans)[0] == s;
  }

  /** A line number computed in the masked text is the line number in the file. */
  lemma {:induction false} MaskKeepsLineNumbers(sql: string, k: nat)
    requires k <= |sql|
    ensures NewlinesBefore(Mask(sql), k) == NewlinesBefore(sql, k)
    decreases k
  {
    hide Mask;
    if k > 0 {
      MaskFaithful(sql);
      MaskKeepsLineNumbers(sql, k - 1);
    }
  }
}
