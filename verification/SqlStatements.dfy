/**
 * What a migration text asks the database to do: its statements, separated by the
 * semicolons that masking leaves, and which of them control the transaction.
 */
module SqlStatements {
  import opened Text
  import opened Scanner
  import opened Masking
  import opened Stripper
  import opened StripLaws
  import opened Residue

  datatype Stmt =
    | Work(text: string)
    | Txn(keyword: Keyword, terminated: bool)

  /** Offset of the first semicolon at or after `a`, or the end of the text. */
  function SemicolonFrom(m: string, a: nat): (b: nat)
    requires a <= |m|
    ensures a <= b <= |m|
    ensures forall y :: a <= y < b ==> m[y] != ';'
    ensures b < |m| ==> m[b] == ';'
    decreases |m| - a
  {
    if a < |m| && m[a] != ';' then SemicolonFrom(m, a + 1) else a
  }

  /** The text from `i` to `b` is the phrase of `k`, and white space. */
  predicate IsPhrase(k: Keyword, m: string, i: nat, b: nat)
    requires i <= b <= |m|
  {
    var p := KeywordEnd(k, m, i);
    p.Some? && SkipSpace(m, p.value) == b
  }

  /** The statement whose masked text begins at `i` and ends at `b`; its own text is taken from `sql`. */
  function StmtAt(sql: string, m: string, i: nat, b: nat): (s: Stmt)
    requires i < b <= |m| == |sql|
  {
    var k := PhraseAt(m, i);
    if k.Some? && IsPhrase(k.value, m, i, b) then Txn(k.value, b < |m|) else Work(sql[i..b])
  }

  /** The statements of `sql` from offset `a` on; blank ones are none. */
  function StmtsFrom(sql: string, m: string, a: nat): (ss: seq<Stmt>)
    requires a <= |m| == |sql|
    decreases |m| - a
  {
    var b, i := SemicolonFrom(m, a), SkipSpace(m, a);
    var here := if i < b then [StmtAt(sql, m, i, b)] else [];
    if b == |m| then here else here + StmtsFrom(sql, m, b + 1)
  }

  function Statements(sql: string): (ss: seq<Stmt>) {
    StmtsFrom(sql, Mask(sql), 0)
  }

  predicate IsTerminatedControl(s: Stmt) {
    s.Txn? && s.terminated
  }

  function WithoutTerminatedControl(ss: seq<Stmt>): (r: seq<Stmt>) {
    if ss == [] then []
    else (if IsTerminatedControl(ss[0]) then [] else [ss[0]]) + WithoutTerminatedControl(ss[1..])
  }

  // ----- the statement that begins at `a`, and the marks on it

  /** `a` is where a statement may begin. */
  ghost predicate StatementStart(m: string, a: nat) {
    a <= |m| && (a == 0 || m[a - 1] == ';')
  }

  /** A match with a character at or after a statement start begins at or after it. */
  lemma {:induction false} MatchStaysInStatement(m: string, a: nat, s: nat, e: nat)
    requires StatementStart(m, a) && s < e <= |m| && a < e
    requires ControlEnd(m, s) == Some(e)
    ensures a <= s && IsWord(m[s]) && forall y :: s <= y < e - 1 ==> m[y] != ';'
  {
    ControlShape(m, s, e);
  }

  lemma {:induction false} PhraseIsMatch(k: Keyword, m: string, a: nat, i: nat, b: nat)
    requires StatementStart(m, a) && a <= i < b < |m| && i == SkipSpace(m, a) && b == SemicolonFrom(m, a)
    requires IsPhrase(k, m, i, b)
    ensures ControlEnd(m, i) == Some(b + 1)
  {
    var p := KeywordEnd(k, m, i).value;
    assert i > a ==> IsSpace(m[i - 1]);
    KeywordDecides(m, i, k, p, b);
  }

  ghost predicate NoTerminatedControl(ss: seq<Stmt>) {
    forall s :: s in ss ==> !IsTerminatedControl(s)
  }

  lemma {:induction false} UnmatchedIsNotControl(sql: string, m: string, a: nat)
    requires |m| == |sql| && StatementStart(m, a)
    requires forall j :: 0 <= j < |m| ==> ControlEnd(m, j).None?
    requires SkipSpace(m, a) < SemicolonFrom(m, a)
    ensures !IsTerminatedControl(StmtAt(sql, m, SkipSpace(m, a), SemicolonFrom(m, a)))
  {
    var b, i := SemicolonFrom(m, a), SkipSpace(m, a);
    var k := PhraseAt(m, i);
    if k.Some? && IsPhrase(k.value, m, i, b) && b < |m| {
      PhraseIsMatch(k.value, m, a, i, b);
    }
  }

  /** A terminated control statement is a finding, so a text without findings has none. */
  lemma {:induction false} NoFindingsNoControlFrom(sql: string, m: string, a: nat)
    requires |m| == |sql| && StatementStart(m, a)
    requires forall j :: 0 <= j < |m| ==> ControlEnd(m, j).None?
    ensures NoTerminatedControl(StmtsFrom(sql, m, a))
    decreases |m| - a
  {
    hide ControlEnd, StmtAt;
    var b, i := SemicolonFrom(m, a), SkipSpace(m, a);
    if i < b {
      UnmatchedIsNotControl(sql, m, a);
    }
    if b < |m| {
      NoFindingsNoControlFrom(sql, m, b + 1);
    }
  }

  lemma {:induction false} NoFindingsNoControl(sql: string)
    requires Findings(sql) == []
    ensures NoTerminatedControl(Statements(sql))
  {
    FindingsEmptyIff(Mask(sql), 0);
    NoFindingsNoControlFrom(sql, Mask(sql), 0);
  }

  // ----- stripping removes the control statements and nothing else

  /**
   * What is marked on a statement: all of it from its first solid character if it is terminated
   * control, nothing otherwise.
   */
  ghost predicate MarksOnStatement(m: string, c: seq<bool>, a: nat)
    requires |c| == |m| && a <= |m|
  {
    var b, i := SemicolonFrom(m, a), SkipSpace(m, a);
    if b < |m| && i < b && ControlEnd(m, i) == Some(b + 1)
    then forall j :: a <= j <= b ==> (c[j] <==> i <= j)
    else forall j :: a <= j <= b && j < |m| ==> !c[j]
  }

  /** A match that touches a statement is the whole of it. */
  lemma {:induction false} MatchIsStatement(m: string, a: nat, s: nat, e: nat, j: nat)
    requires StatementStart(m, a) && EveryMatchBeginsStatement(m)
    requires s <= j < e <= |m| && ControlEnd(m, s) == Some(e)
    requires a <= j <= SemicolonFrom(m, a)
    ensures s == SkipSpace(m, a) && e == SemicolonFrom(m, a) + 1 && s + 1 < e
  {
    hide ControlEnd;
    MatchStaysInStatement(m, a, s, e);
    assert BeginsStatement(m, s);
    var p := PrevSolid(m, s);
    assert p.Some? ==> p.value < a;
    SkipTo(m, a, s);
  }

  lemma {:induction false} MarkedIsControl(m: string, a: nat, j: nat)
    requires StatementStart(m, a) && EveryMatchBeginsStatement(m)
    requires a <= j <= SemicolonFrom(m, a) && j < |m| && Marks(Control, m)[j]
    ensures var b, i := SemicolonFrom(m, a), SkipSpace(m, a);
            i <= j && i < b < |m| && ControlEnd(m, i) == Some(b + 1)
  {
    hide ControlEnd, EveryMatchBeginsStatement;
    var s, e := SpanAround(Control, m, 0, j);
    MatchIsStatement(m, a, s, e, j);
  }

  lemma {:induction false} MarksOnStatementHold(m: string, c: seq<bool>, a: nat)
    requires StatementStart(m, a) && EveryMatchBeginsStatement(m) && c == Marks(Control, m)
    ensures MarksOnStatement(m, c, a)
  {
    hide ControlEnd, EveryMatchBeginsStatement;
    var b, i := SemicolonFrom(m, a), SkipSpace(m, a);
    forall j | a <= j <= b && j < |m| && c[j]
      ensures i <= j && i < b < |m| && ControlEnd(m, i) == Some(b + 1)
    {
      MarkedIsControl(m, a, j);
    }
    if b < |m| && i < b && ControlEnd(m, i) == Some(b + 1) {
      AllOfMatchMarked(m, a, i, b + 1);
    }
  }

  lemma {:induction false} AllOfMatchMarked(m: string, a: nat, i: nat, e: nat)
    requires StatementStart(m, a) && EveryMatchBeginsStatement(m)
    requires a <= i < e <= |m| && ControlEnd(m, i) == Some(e) && i == SkipSpace(m, a) && e == SemicolonFrom(m, a) + 1
    ensures forall j :: i <= j < e ==> Marks(Control, m)[j]
  {
    hide ControlEnd, EveryMatchBeginsStatement;
    if !Marks(Control, m)[i] {
      UnmarkedMeansNoMatch(Control, m, 0, i);
    }
    var s, f := SpanAround(Control, m, 0, i);
    MatchIsStatement(m, a, s, f, i);
  }

  lemma {:induction false} BlankLeadIn(t: string, a: nat, d: nat)
    requires a <= d <= |t|
    requires forall y :: a <= y < d ==> IsSpace(t[y])
    ensures SemicolonFrom(t, a) == SemicolonFrom(t, d) && SkipSpace(t, a) == SkipSpace(t, d)
    decreases d - a
  {
    if a < d {
      BlankLeadIn(t, a + 1, d);
    }
  }

  lemma {:induction false} SemicolonTo(t: string, a: nat, b: nat)
    requires a <= b <= |t| && (b < |t| ==> t[b] == ';')
    requires forall y :: a <= y < b ==> t[y] != ';'
    ensures SemicolonFrom(t, a) == b
    decreases b - a
  {
    if a < b {
      SemicolonTo(t, a + 1, b);
    }
  }

  lemma {:induction false} PhraseAgrees(k: Keyword, s: string, t: string, i: nat, b: nat)
    requires |s| == |t| && i < b <= |s| && IsPhrase(k, t, i, b)
    requires forall y :: i <= y <= b && y < |s| ==> s[y] == t[y]
    ensures IsPhrase(k, s, i, b)
  {
    var p := KeywordEnd(k, t, i).value;
    KeywordLocal(k, s, t, i, p);
    SkipTo(s, p, b);
  }

  lemma {:induction false} PhraseDecides(sql: string, m: string, i: nat, b: nat, k: Keyword)
    requires i < b <= |m| == |sql| && IsPhrase(k, m, i, b)
    ensures StmtAt(sql, m, i, b) == Txn(k, b < |m|)
  {
    SomePhrase(m, i, k);
    OneKeyword(m, i, k, PhraseAt(m, i).value);
  }

  /** The bounds of a statement without a marked character are its bounds afterwards. */
  lemma {:induction false} BoundsKept(m: string, t: string, a: nat)
    requires |m| == |t| && a <= |m|
    requires forall y :: a <= y <= SemicolonFrom(m, a) && y < |m| ==> t[y] == m[y]
    ensures SemicolonFrom(t, a) == SemicolonFrom(m, a) && SkipSpace(t, a) == SkipSpace(m, a)
    ensures SkipSpace(m, a) <= SemicolonFrom(m, a)
  {
    var b, i := SemicolonFrom(m, a), SkipSpace(m, a);
    assert i <= b by {
      assert b < |m| ==> !IsSpace(m[b]);
    }
    SemicolonTo(t, a, b);
    SkipTo(t, a, i);
  }

  /** A statement without a marked character is the same statement afterwards. */
  lemma {:induction false} StatementKept(sql: string, out: string, m: string, t: string, a: nat)
    requires |sql| == |out| == |m| == |t| && a <= |m|
    requires forall y :: a <= y <= SemicolonFrom(m, a) && y < |m| ==> t[y] == m[y] && out[y] == sql[y]
    requires SkipSpace(m, a) < SemicolonFrom(m, a)
    ensures StmtAt(out, t, SkipSpace(m, a), SemicolonFrom(m, a)) == StmtAt(sql, m, SkipSpace(m, a), SemicolonFrom(m, a))
  {
    var b, i := SemicolonFrom(m, a), SkipSpace(m, a);
    assert out[i..b] == sql[i..b];
    StmtAgrees(sql, out, m, t, i, b);
  }

  lemma {:induction false} StmtAgrees(sql: string, out: string, m: string, t: string, i: nat, b: nat)
    requires i < b <= |sql| == |out| == |m| == |t|
    requires forall y :: i <= y <= b && y < |m| ==> t[y] == m[y]
    requires out[i..b] == sql[i..b]
    ensures StmtAt(out, t, i, b) == StmtAt(sql, m, i, b)
  {
    if k :| IsPhrase(k, m, i, b) {
      PhraseAgrees(k, t, m, i, b);
      PhraseDecides(sql, m, i, b, k);
      PhraseDecides(out, t, i, b, k);
    } else if k :| IsPhrase(k, t, i, b) {
      PhraseAgrees(k, m, t, i, b);
    }
  }

  lemma {:induction false} WithoutControlAppend(s: Stmt, ss: seq<Stmt>)
    ensures WithoutTerminatedControl([s] + ss) ==
            (if IsTerminatedControl(s) then [] else [s]) + WithoutTerminatedControl(ss)
  {
    assert ([s] + ss)[1..] == ss;
  }

  lemma {:induction false} ControlIsTerminated(sql: string, m: string, a: nat)
    requires |m| == |sql| && StatementStart(m, a)
    requires SkipSpace(m, a) < SemicolonFrom(m, a)
    ensures var b, i := SemicolonFrom(m, a), SkipSpace(m, a);
            IsTerminatedControl(StmtAt(sql, m, i, b)) <==> b < |m| && ControlEnd(m, i) == Some(b + 1)
  {
    var b, i := SemicolonFrom(m, a), SkipSpace(m, a);
    if IsTerminatedControl(StmtAt(sql, m, i, b)) {
      PhraseIsMatch(PhraseAt(m, i).value, m, a, i, b);
    } else if b < |m| && ControlEnd(m, i) == Some(b + 1) {
      assert IsPhrase(PhraseAt(m, i).value, m, i, b);
    }
  }

  /** One unfolding of `StmtsFrom`, once the bounds of the statement are known. */
  lemma {:induction false} Unfold(sql: string, m: string, a: nat, b: nat, i: nat)
    requires a <= |m| == |sql| && b == SemicolonFrom(m, a) && i == SkipSpace(m, a)
    ensures var rest := if b == |m| then [] else StmtsFrom(sql, m, b + 1);
            StmtsFrom(sql, m, a) == (if i < b then [StmtAt(sql, m, i, b)] else []) + rest
  {
    hide StmtAt;
  }

  /** A terminated control statement is erased whole, and the text goes on as if it had begun behind it. */
  lemma {:induction false} ControlErased(sql: string, out: string, m: string, t: string, c: seq<bool>, a: nat)
    requires |m| == |sql| == |c| == |out| && t == BlankAt(m, c)
    requires StatementStart(m, a) && MarksOnStatement(m, c, a)
    requires var b, i := SemicolonFrom(m, a), SkipSpace(m, a);
             b < |m| && i < b && ControlEnd(m, i) == Some(b + 1)
    ensures StmtsFrom(out, t, a) == StmtsFrom(out, t, SemicolonFrom(m, a) + 1)
    ensures WithoutTerminatedControl(StmtsFrom(sql, m, a))
         == WithoutTerminatedControl(StmtsFrom(sql, m, SemicolonFrom(m, a) + 1))
  {
    hide ControlEnd, StmtAt, StmtsFrom, IsTerminatedControl;
    var b, i := SemicolonFrom(m, a), SkipSpace(m, a);
    ControlIsTerminated(sql, m, a);
    BlankLeadIn(t, a, b + 1);
    Unfold(out, t, a, SemicolonFrom(t, a), SkipSpace(t, a));
    Unfold(out, t, b + 1, SemicolonFrom(t, a), SkipSpace(t, a));
    Unfold(sql, m, a, b, i);
    WithoutControlAppend(StmtAt(sql, m, i, b), StmtsFrom(sql, m, b + 1));
  }

  lemma {:induction false} NothingMarked(m: string, c: seq<bool>, a: nat)
    requires |c| == |m| && a <= |m| && MarksOnStatement(m, c, a)
    requires var b, i := SemicolonFrom(m, a), SkipSpace(m, a);
             !(b < |m| && i < b && ControlEnd(m, i) == Some(b + 1))
    ensures forall j :: a <= j <= SemicolonFrom(m, a) && j < |m| ==> !c[j]
  {
    hide ControlEnd;
  }

  /** Any other statement stays, and so does the place where the next one begins. */
  lemma {:induction false} OtherKept(sql: string, out: string, m: string, t: string, c: seq<bool>, a: nat)
    requires |m| == |sql| == |c| && t == BlankAt(m, c) && out == BlankAt(sql, c)
    requires StatementStart(m, a) && MarksOnStatement(m, c, a)
    requires var b, i := SemicolonFrom(m, a), SkipSpace(m, a);
             !(b < |m| && i < b && ControlEnd(m, i) == Some(b + 1))
    ensures SemicolonFrom(t, a) == SemicolonFrom(m, a) && SkipSpace(t, a) == SkipSpace(m, a) <= SemicolonFrom(m, a)
    ensures var b, i := SemicolonFrom(m, a), SkipSpace(m, a);
            i < b ==> StmtAt(out, t, i, b) == StmtAt(sql, m, i, b) && !IsTerminatedControl(StmtAt(sql, m, i, b))
  {
    hide ControlEnd, StmtAt, IsTerminatedControl, SemicolonFrom, SkipSpace, MarksOnStatement;
    NothingMarked(m, c, a);
    BoundsKept(m, t, a);
    if SkipSpace(m, a) < SemicolonFrom(m, a) {
      ControlIsTerminated(sql, m, a);
      StatementKept(sql, out, m, t, a);
    }
  }

  /** What dropping control does to an optional kept statement and the rest. */
  lemma {:induction false} OtherStays(here: seq<Stmt>, rest: seq<Stmt>)
    requires |here| <= 1 && (here != [] ==> !IsTerminatedControl(here[0]))
    ensures WithoutTerminatedControl(here + rest) == here + WithoutTerminatedControl(rest)
  {
    if here == [] {
      assert here + rest == rest;
    } else {
      assert here == [here[0]];
      WithoutControlAppend(here[0], rest);
    }
  }

  lemma {:induction false} MeaningPreservedFrom(sql: string, out: string, m: string, t: string, c: seq<bool>, a: nat)
    requires |m| == |sql| && c == Marks(Control, m) && t == BlankAt(m, c) && out == BlankAt(sql, c)
    requires StatementStart(m, a) && EveryMatchBeginsStatement(m)
    ensures StmtsFrom(out, t, a) == WithoutTerminatedControl(StmtsFrom(sql, m, a))
    decreases |m| - a
  {
    hide ControlEnd, StmtAt, StmtsFrom, MarksOnStatement, EveryMatchBeginsStatement;
    var b, i := SemicolonFrom(m, a), SkipSpace(m, a);
    MarksOnStatementHold(m, c, a);
    if b < |m| {
      MeaningPreservedFrom(sql, out, m, t, c, b + 1);
    }
    if b < |m| && i < b && ControlEnd(m, i) == Some(b + 1) {
      ControlErased(sql, out, m, t, c, a);
    } else {
      OtherKept(sql, out, m, t, c, a);
      Unfold(sql, m, a, b, i);
      Unfold(out, t, a, b, i);
      OtherStays(if i < b then [StmtAt(sql, m, i, b)] else [], if b == |m| then [] else StmtsFrom(sql, m, b + 1));
    }
  }

  /**
   * Stripping preserves meaning: when every match begins a statement, the stripped
   * text asks for exactly the statements of the original, in order and character
   * for character, minus the terminated transaction control.
   */
  lemma {:induction false} StripPreservesMeaning(sql: string)
    requires EveryMatchBeginsStatement(Mask(sql))
    ensures Statements(Strip(sql)) == WithoutTerminatedControl(Statements(sql))
  {
    MaskCommutesWithStrip(sql);
    MeaningPreservedFrom(sql, Strip(sql), Mask(sql), Mask(Strip(sql)), ControlMarks(sql), 0);
  }
}
