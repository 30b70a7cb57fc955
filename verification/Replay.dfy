/** When the embedded replay applies a file as one transaction of its own, and what becomes of it otherwise. */
module Replay {
  import opened Text
  import opened Scanner
  import opened Masking
  import opened SqlStatements
  import opened Database
  import opened Harmless
  import opened Runner
  import opened RunLaws
  import opened Atomicity
  import opened Composed

  /** One query text for the stripped text `t`; a failure is answered with `ROLLBACK`. */
  function ReplayOne(means: Reading, s: Session, t: string, fault: Fault): (r: Step) {
    var r := ExecBody(s, Asks(means, Compose(t)), 0, fault);
    if r.ok then r else Step(ExecTxn(r.session, Rollback), false)
  }

  /** What stands behind the last statement in the composed text. */
  function More(t: string): (more: string) {
    if CommentOpen(t) then TAIL else " "
  }

  /** The database reads the last statement alike with that blank, or with more of its comment, behind it. */
  ghost predicate ReadsOn(means: Reading, t: string) {
    forall i: nat :: i <= |t| ==> means(t[i..] + More(t)) == means(t[i..])
  }

  // ----- what the composed text asks for

  ghost predicate ActAlike(a: Act, c: Act) {
    match a
    case Controls(_) => c == a
    case Does(text) => c.Does? && text <= c.text
  }

  ghost predicate ActsAlike(acts: seq<Act>, cs: seq<Act>) {
    |cs| == |acts| && forall k :: 0 <= k < |acts| ==> ActAlike(acts[k], cs[k])
  }

  /** The acts of the file within the composed text. */
  function Middle(means: Reading, t: string): (acts: seq<Act>) {
    var x, n := Asks(means, Compose(t)), |Statements(t)|;
    if n < |x| then x[1..n + 1] else []
  }

  lemma {:induction false} StmtActs(means: Reading, t: string, a: Stmt, c: Stmt)
    requires ReadsOn(means, t) && Alike(t, a, c, More(t))
    ensures ActAlike(ActOf(means, a), ActOf(means, c))
  {
    if a.Work? && c != a {
      var i: nat :| i <= |t| && a.text == t[i..];
      assert means(t[i..] + More(t)) == means(t[i..]);
    }
  }

  /** `BEGIN`, the acts of the file, and `COMMIT` unless a comment swallows it. */
  lemma {:induction false} ComposedAsks(means: Reading, t: string)
    requires ReadsOn(means, t)
    ensures ActsAlike(Asks(means, t), Middle(means, t))
    ensures Asks(means, Compose(t))
         == [Controls(Begin)] + Middle(means, t) + if CommentOpen(t) then [] else [Controls(Commit)]
  {
    hide Statements, Compose, CommentOpen, ReadsOn, Alike, ActAlike, ActOf;
    var cs, x, n := Statements(Compose(t)), Asks(means, Compose(t)), |Statements(t)|;
    ComposedStatements(t);
    ActOfTxn(means);
    assert More(t) == if CommentOpen(t) then TAIL else " ";
    forall k | 0 <= k < n
      ensures ActAlike(Asks(means, t)[k], x[k + 1])
    {
      assert cs[1..][k] == cs[k + 1];
      StmtActs(means, t, Statements(t)[k], cs[k + 1]);
    }
    assert |cs| == n + if CommentOpen(t) then 1 else 2;
    if !CommentOpen(t) {
      assert cs[1..][n] == cs[n + 1];
      assert x == [x[0]] + x[1..n + 1] + [x[n + 1]];
    } else {
      assert x == [x[0]] + x[1..n + 1] + [];
    }
  }

  lemma {:induction false} ActOfTxn(means: Reading)
    ensures forall k, ended :: ActOf(means, Txn(k, ended)) == Controls(k)
  {
  }

  // ----- alike acts

  /** Whether a block is open after acts that begin in one. */
  function InBlockAfter(acts: seq<Act>): (open: bool) {
    if acts == [] then true
    else match acts[|acts| - 1]
      case Controls(k) => Opens(k)
      case Does(_) => InBlockAfter(acts[..|acts| - 1])
  }

  lemma {:induction false} AlikeActs(acts: seq<Act>, cs: seq<Act>)
    requires ActsAlike(acts, cs)
    ensures PhaseOf(cs) == PhaseOf(acts) && InBlockAfter(cs) == InBlockAfter(acts)
    ensures EndsItself(cs) == EndsItself(acts)
    decreases |acts|
  {
    if acts != [] {
      var n := |acts| - 1;
      AlikeActs(acts[..n], cs[..n]);
      assert ActAlike(acts[n], cs[n]);
    }
  }

  /** Acts that begin in a block and end as one transaction without a commit behind them. */
  predicate EndsItself(acts: seq<Act>) {
    acts != [] &&
    var init := acts[..|acts| - 1];
    match acts[|acts| - 1]
    case Controls(k) =>
      if Opens(k) then false else if k == Rollback then PhaseOf(init).Clean? else !PhaseOf(init).Broken?
    case Does(_) => PhaseOf(acts) == Phase.Pending(false)
  }

  // ----- carrying them out

  /** The session after the first `j` acts. */
  function After(s: Session, acts: seq<Act>, j: nat): (r: Session)
    requires j <= |acts|
  {
    if j == 0 then s else ExecAct(After(s, acts, j - 1), acts[j - 1])
  }

  ghost predicate StrikesFrom(fault: Fault, j: nat, n: nat) {
    fault.InBody? && j <= fault.at < n
  }

  lemma {:induction false} ExecIs(s: Session, acts: seq<Act>, j: nat, fault: Fault)
    requires j < |acts|
    ensures ExecBody(After(s, acts, j), acts, j, fault)
         == if StrikesFrom(fault, j, |acts|) then Step(FailQuery(After(s, acts, fault.at)), false)
            else Step(EndQuery(After(s, acts, |acts|)), true)
    decreases |acts| - j
  {
    hide ExecAct, EndQuery, FailQuery;
    assert After(s, acts, j + 1) == ExecAct(After(s, acts, j), acts[j]);
    if fault != InBody(j) && j + 1 < |acts| {
      ExecIs(s, acts, j + 1, fault);
    }
  }

  /** Within the acts of the file the session stands as a body in a block does. */
  lemma {:induction false} StandsAfter(s: Session, acts: seq<Act>, mid: seq<Act>, j: nat)
    requires s.open.NoTxn? && j <= |mid| < |acts| && acts[0] == Controls(Begin) && acts[1..|mid| + 1] == mid
    ensures Stands(s.commits, After(s, acts, j + 1), mid, j)
    decreases j
  {
    hide ExecAct, Stands;
    if j == 0 {
      BeginStands(s, acts, mid);
    } else {
      StandsAfter(s, acts, mid, j - 1);
      assert acts[j] == mid[j - 1];
      StandsNext(s.commits, After(s, acts, j), mid, j - 1);
    }
  }

  lemma {:induction false} BeginStands(s: Session, acts: seq<Act>, mid: seq<Act>)
    requires s.open.NoTxn? && acts != [] && acts[0] == Controls(Begin)
    ensures After(s, acts, 1) == Session(s.commits, InBlock(NOTHING)) && Stands(s.commits, After(s, acts, 1), mid, 0)
  {
    assert After(s, acts, 0) == s;
    assert mid[..0] == [];
  }

  lemma {:induction false} BlockAfter(s: Session, acts: seq<Act>, mid: seq<Act>, j: nat)
    requires s.open.NoTxn? && j <= |mid| < |acts| && acts[0] == Controls(Begin) && acts[1..|mid| + 1] == mid
    ensures After(s, acts, j + 1).open.InBlock? <==> InBlockAfter(mid[..j])
    decreases j
  {
    if j == 0 {
      BeginStands(s, acts, mid);
    } else {
      BlockAfter(s, acts, mid, j - 1);
      assert acts[j] == mid[j - 1] && mid[..j][..j - 1] == mid[..j - 1];
    }
  }

  // ----- a transaction of its own

  /** The transaction that the file should be. */
  function WorkOf(means: Reading, t: string): (w: Transaction) {
    Transaction(WorkTexts(Middle(means, t)), [])
  }

  /** All of it is committed and reported, or nothing is committed and failure is; nothing stays open. */
  ghost predicate Whole(means: Reading, s: Session, t: string, fault: Fault) {
    var r := ReplayOne(means, s, t, fault);
    r.session == Session(if r.ok then Committed(s.commits, WorkOf(means, t)) else s.commits, NoTxn)
  }

  /** Where nothing has been broken, a failure leaves nothing, and a commit commits all the work so far. */
  lemma {:induction false} UnbrokenStands(c: seq<Transaction>, q: Session, mid: seq<Act>, j: nat)
    requires j <= |mid| && Stands(c, q, mid, j) && !PhaseOf(mid[..j]).Broken?
    ensures ExecTxn(q, Rollback) == Session(c, NoTxn) == ExecTxn(FailQuery(q), Rollback)
    ensures ExecTxn(q, Commit) == Session(Committed(c, Transaction(WorkTexts(mid[..j]), [])), NoTxn)
  {
    hide PhaseOf, WorkTexts;
    PendingIffWork(mid[..j]);
  }

  lemma {:induction false} UnbrokenBefore(mid: seq<Act>, j: nat, n: nat)
    requires j <= n <= |mid| && !PhaseOf(mid[..n]).Broken?
    ensures !PhaseOf(mid[..j]).Broken?
  {
    assert mid[..n][..j] == mid[..j];
    if PhaseOf(mid[..j]).Broken? {
      BrokenStays(mid[..n], j);
    }
  }

  lemma {:induction false} UnbrokenIsWhole(means: Reading, s: Session, t: string, fault: Fault)
    requires s.open.NoTxn? && ReadsOn(means, t) && !CommentOpen(t) && !PhaseOf(Asks(means, t)).Broken?
    ensures Whole(means, s, t, fault)
  {
    hide Asks, Compose, CommentOpen, ReadsOn, Stands, PhaseOf, WorkTexts, Middle, ExecTxn, FailQuery;
    var x, mid := Asks(means, Compose(t)), Middle(means, t);
    ComposedAsks(means, t);
    AlikeActs(Asks(means, t), mid);
    assert x[1..|mid| + 1] == mid && |x| == |mid| + 2 && x[|mid| + 1] == Controls(Commit);
    assert After(s, x, 0) == s;
    ExecIs(s, x, 0, fault);
    var j := if StrikesFrom(fault, 1, |x|) then fault.at - 1 else |mid|;
    StandsAfter(s, x, mid, j);
    assert mid[..|mid|] == mid;
    UnbrokenBefore(mid, j, |mid|);
    UnbrokenStands(s.commits, After(s, x, j + 1), mid, j);
    FirstFails(s);
    CommitEnds(After(s, x, |mid| + 1), x[|mid| + 1]);
  }

  lemma {:induction false} FirstFails(s: Session)
    requires s.open.NoTxn?
    ensures ExecTxn(FailQuery(s), Rollback) == s
  {
  }

  lemma {:induction false} CommitEnds(q: Session, a: Act)
    requires a == Controls(Commit)
    ensures EndQuery(ExecAct(q, a)) == ExecAct(q, a) == ExecTxn(q, Commit) && ExecTxn(q, Commit).open.NoTxn?
  {
  }

  /** What is torn is not whole: either the commit fails too late, or what it commits is not all. */
  lemma {:induction false} TornIsSeen(c: seq<Transaction>, q: Session, work: seq<string>)
    requires Torn(c, q, |work|)
    ensures ExecTxn(FailQuery(q), Rollback).commits != c
         || ExecTxn(q, Commit).commits != Committed(c, Transaction(work, []))
  {
    if q.commits == c {
      assert work != [];
      var whole := Transaction(work, []);
      assert Committed(c, whole)[|c|] == whole;
    }
  }

  lemma {:induction false} BrokenIsNotWhole(means: Reading, s: Session, t: string)
    requires s.open.NoTxn? && ReadsOn(means, t) && !CommentOpen(t) && PhaseOf(Asks(means, t)).Broken?
    ensures !Whole(means, s, t, NoFault) || !Whole(means, s, t, InBody(|Middle(means, t)| + 1))
  {
    hide Asks, Compose, CommentOpen, ReadsOn, PhaseOf, WorkTexts, Middle, ExecTxn, FailQuery, Torn;
    var x, mid := Asks(means, Compose(t)), Middle(means, t);
    ComposedAsks(means, t);
    AlikeActs(Asks(means, t), mid);
    assert x[1..|mid| + 1] == mid && |x| == |mid| + 2 && x[|mid| + 1] == Controls(Commit);
    assert After(s, x, 0) == s;
    ExecIs(s, x, 0, NoFault);
    ExecIs(s, x, 0, InBody(|mid| + 1));
    var q := After(s, x, |mid| + 1);
    StandsAfter(s, x, mid, |mid|);
    assert mid[..|mid|] == mid;
    TornIsSeen(s.commits, q, WorkTexts(mid));
    CommitEnds(q, x[|mid| + 1]);
  }

  /** Without a failure a text whose comment swallows the commit leaves its block open, unless it has ended it. */
  lemma {:induction false} OpenAfterReplay(means: Reading, s: Session, t: string)
    requires s.open.NoTxn? && ReadsOn(means, t)
    ensures var r := ReplayOne(means, s, t, NoFault);
            r.ok && (r.session.open.NoTxn? <==> !CommentOpen(t) || !InBlockAfter(Asks(means, t)))
  {
    hide Asks, Compose, CommentOpen, ReadsOn, Middle, InBlockAfter, ExecAct;
    var x, mid := Asks(means, Compose(t)), Middle(means, t);
    ComposedAsks(means, t);
    AlikeActs(Asks(means, t), mid);
    assert x[1..|mid| + 1] == mid;
    assert After(s, x, 0) == s;
    ExecIs(s, x, 0, NoFault);
    BlockAfter(s, x, mid, |mid|);
    assert mid[..|mid|] == mid;
    if !CommentOpen(t) {
      CommitEnds(After(s, x, |mid| + 1), x[|mid| + 1]);
    }
  }

  // ----- the swallowed commit

  lemma {:induction false} SelfEndedIsWhole(means: Reading, s: Session, t: string, fault: Fault)
    requires s.open.NoTxn? && ReadsOn(means, t) && CommentOpen(t) && EndsItself(Asks(means, t))
    ensures Whole(means, s, t, fault)
  {
    hide Asks, Compose, CommentOpen, ReadsOn, Stands, PhaseOf, WorkTexts, Middle, ExecTxn, FailQuery, EndsItself,
         EndQuery, ExecAct;
    var x, mid := Asks(means, Compose(t)), Middle(means, t);
    ComposedAsks(means, t);
    AlikeActs(Asks(means, t), mid);
    assert x[1..|mid| + 1] == mid && |x| == |mid| + 1;
    assert After(s, x, 0) == s;
    ExecIs(s, x, 0, fault);
    FirstFails(s);
    BlockNonEmpty(mid);
    var n := |mid| - 1;
    if StrikesFrom(fault, 1, |x|) {
      var j := fault.at - 1;
      StandsAfter(s, x, mid, j);
      UnbrokenBefore(mid, j, n);
      UnbrokenStands(s.commits, After(s, x, j + 1), mid, j);
    } else {
      StandsAfter(s, x, mid, n);
      StandsAfter(s, x, mid, n + 1);
      assert After(s, x, n + 2) == ExecAct(After(s, x, n + 1), mid[n]);
      SelfEnds(s.commits, After(s, x, n + 1), After(s, x, n + 2), mid);
    }
  }

  lemma {:induction false} BlockNonEmpty(mid: seq<Act>)
    requires EndsItself(mid)
    ensures mid != [] && !PhaseOf(mid[..|mid| - 1]).Broken?
  {
  }

  lemma {:induction false} SelfEnds(c: seq<Transaction>, q: Session, q': Session, mid: seq<Act>)
    requires EndsItself(mid) && q' == ExecAct(q, mid[|mid| - 1])
    requires Stands(c, q, mid, |mid| - 1) && Stands(c, q', mid, |mid|)
    ensures EndQuery(q') == Session(Committed(c, Transaction(WorkTexts(mid), [])), NoTxn)
  {
    hide PhaseOf, WorkTexts;
    var n := |mid| - 1;
    assert mid[..|mid|] == mid;
    WorkTextsNext(mid, n);
    PendingIffWork(mid[..n]);
    if mid[n].Controls? {
      UnbrokenStands(c, q, mid, n);
      assert EndQuery(q') == q' == ExecTxn(q, mid[n].keyword);
      assert WorkTexts(mid) == WorkTexts(mid[..n]) + [] == WorkTexts(mid[..n]);
    } else {
      assert q' == Session(c, Implicit(Transaction(WorkTexts(mid), [])));
      assert WorkTexts(mid) != [];
    }
  }

  /** A failure at the last act, or none, shows that a body that does not end itself is not whole. */
  lemma {:induction false} NotSelfEnded(means: Reading, s: Session, t: string)
    requires s.open.NoTxn? && ReadsOn(means, t) && CommentOpen(t) && !EndsItself(Asks(means, t))
    ensures !Whole(means, s, t, NoFault) || !Whole(means, s, t, InBody(|Middle(means, t)|))
  {
    hide Asks, Compose, CommentOpen, ReadsOn, Stands, PhaseOf, WorkTexts, Middle, ExecTxn, FailQuery, EndsItself,
         EndQuery, ExecAct, InBlockAfter;
    OpenAfterReplay(means, s, t);
    var x, mid := Asks(means, Compose(t)), Middle(means, t);
    ComposedAsks(means, t);
    AlikeActs(Asks(means, t), mid);
    if !InBlockAfter(mid) {
      assert x[1..|mid| + 1] == mid && |x| == |mid| + 1;
      assert After(s, x, 0) == s;
      BlockAtFirst(mid);
      var n := |mid| - 1;
      ExecIs(s, x, 0, NoFault);
      ExecIs(s, x, 0, InBody(n + 1));
      StandsAfter(s, x, mid, n);
      StandsAfter(s, x, mid, n + 1);
      BlockAfter(s, x, mid, n + 1);
      assert mid[..n + 1] == mid;
      assert After(s, x, n + 2) == ExecAct(After(s, x, n + 1), mid[n]);
      NotEnded(s.commits, After(s, x, n + 1), After(s, x, n + 2), mid);
    }
  }

  lemma {:induction false} BlockAtFirst(mid: seq<Act>)
    requires !InBlockAfter(mid)
    ensures mid != []
  {
  }

  lemma {:induction false} NotEnded(c: seq<Transaction>, q: Session, q': Session, mid: seq<Act>)
    requires mid != [] && !EndsItself(mid) && !InBlockAfter(mid) && q' == ExecAct(q, mid[|mid| - 1])
    requires Stands(c, q, mid, |mid| - 1) && Stands(c, q', mid, |mid|) && !q'.open.InBlock?
    ensures ExecTxn(FailQuery(q), Rollback).commits != c
         || EndQuery(q') != Session(Committed(c, Transaction(WorkTexts(mid), [])), NoTxn)
  {
    hide WorkTexts, PhaseOf;
    var n := |mid| - 1;
    var init := mid[..n];
    assert mid[..|mid|] == mid;
    WorkTextsNext(mid, n);
    PhaseNext(mid, n);
    PendingIffWork(init);
    PendingIffWork(mid);
    if PhaseOf(init).Broken? && mid[n].Controls? {
      TornAtControl(c, q, WorkTexts(init), mid[n].keyword);
    } else if PhaseOf(init).Broken? {
      TornAtWork(c, q, WorkTexts(init), mid[n].text);
    } else {
      RolledBack(c, q, mid, n);
    }
  }

  lemma {:induction false} TornAtControl(c: seq<Transaction>, q: Session, work: seq<string>, k: Keyword)
    requires Torn(c, q, |work|) && !Opens(k)
    ensures ExecTxn(FailQuery(q), Rollback).commits != c
         || EndQuery(ExecTxn(q, k)).commits != Committed(c, Transaction(work, []))
  {
    TornIsSeen(c, q, work);
    if q.commits == c {
      assert work != [];
      assert |Committed(c, Transaction(work, []))| == |c| + 1;
    }
  }

  lemma {:induction false} TornAtWork(c: seq<Transaction>, q: Session, work: seq<string>, text: string)
    requires Torn(c, q, |work|) && !ExecAct(q, Does(text)).open.InBlock?
    ensures ExecTxn(FailQuery(q), Rollback).commits != c
         || EndQuery(ExecAct(q, Does(text))).commits != Committed(c, Transaction(work + [text], []))
  {
    if q.commits == c {
      var whole := Transaction(work + [text], []);
      assert Committed(c, whole)[|c|] == whole;
      var less := ExecAct(q, Does(text)).open.txn;
      assert |less.stmts| < |whole.stmts|;
      assert Committed(c, less)[|c|] == less;
    }
  }

  /** Nothing is broken before a last act that rolls work back. */
  lemma {:induction false} RolledBack(c: seq<Transaction>, q: Session, mid: seq<Act>, n: nat)
    requires |mid| == n + 1 && !PhaseOf(mid[..n]).Broken? && !EndsItself(mid) && !InBlockAfter(mid)
    requires Stands(c, q, mid, n) && Stands(c, ExecAct(q, mid[n]), mid, n + 1) && !ExecAct(q, mid[n]).open.InBlock?
    ensures EndQuery(ExecAct(q, mid[n])) != Session(Committed(c, Transaction(WorkTexts(mid), [])), NoTxn)
  {
    hide WorkTexts, PhaseOf;
    assert mid[..n + 1] == mid;
    WorkTextsNext(mid, n);
    PhaseNext(mid, n);
    PendingIffWork(mid[..n]);
    var whole := Transaction(WorkTexts(mid), []);
    if mid[n].Controls? {
      UnbrokenStands(c, q, mid, n);
      assert Committed(c, whole) != c;
    }
  }

  /**
   * When a file is replayed as one transaction of its own or not at all, whatever fails: if
   * no line comment of its stripped text runs to its end, exactly when nothing ends the
   * transaction once work is pending; if one does, exactly when the text ends the
   * transaction itself, once, in the end.
   */
  lemma {:induction false} ReplayedWholeIff(means: Reading, s: Session, t: string)
    requires s.open.NoTxn? && ReadsOn(means, t)
    ensures (forall fault :: Whole(means, s, t, fault)) <==>
              if CommentOpen(t) then EndsItself(Asks(means, t)) else !PhaseOf(Asks(means, t)).Broken?
  {
    hide Asks, CommentOpen, ReadsOn, PhaseOf, Whole, EndsItself;
    if CommentOpen(t) {
      if EndsItself(Asks(means, t)) {
        forall fault { SelfEndedIsWhole(means, s, t, fault); }
      } else {
        NotSelfEnded(means, s, t);
      }
    } else if PhaseOf(Asks(means, t)).Broken? {
      BrokenIsNotWhole(means, s, t);
    } else {
      forall fault { UnbrokenIsWhole(means, s, t, fault); }
    }
  }

  /** Without any control in the text it is exactly the comment that decides. */
  lemma {:induction false} PlainReplayIff(means: Reading, s: Session, t: string)
    requires s.open.NoTxn? && ReadsOn(means, t) && forall a :: a in Asks(means, t) ==> a.Does?
    ensures (forall fault :: Whole(means, s, t, fault)) <==> !CommentOpen(t)
  {
    hide Asks, CommentOpen, ReadsOn, Whole;
    var acts := Asks(means, t);
    assert forall j :: 0 <= j < |acts| ==> acts[j] in acts;
    OnlyWork(acts);
    ReplayedWholeIff(means, s, t);
  }

  lemma {:induction false} OnlyWork(acts: seq<Act>)
    requires forall j :: 0 <= j < |acts| ==> acts[j].Does?
    ensures PhaseOf(acts) in {Clean(true), Phase.Pending(true)} && !EndsItself(acts)
  {
    if acts != [] {
      OnlyWork(acts[..|acts| - 1]);
    }
  }

  /** Nothing before act `j` ends a transaction. */
  ghost predicate KeepsOpen(acts: seq<Act>, j: nat) {
    j <= |acts| && forall i :: 0 <= i < j && acts[i].Controls? ==> Opens(acts[i].keyword)
  }

  lemma {:induction false} StaysInBlock(q: Session, acts: seq<Act>, j: nat)
    requires q.open.InBlock? && KeepsOpen(acts, j)
    ensures After(q, acts, j).open.InBlock? && After(q, acts, j).commits == q.commits
    decreases j
  {
    if j > 0 {
      StaysInBlock(q, acts, j - 1);
    }
  }

  lemma {:induction false} KeepsOpenWithin(acts: seq<Act>, cs: seq<Act>, tail: seq<Act>, j: nat)
    requires ActsAlike(acts, cs) && KeepsOpen(acts, j)
    ensures KeepsOpen([Controls(Begin)] + cs + tail, j + 1)
  {
    var x := [Controls(Begin)] + cs + tail;
    forall i | 0 <= i < j + 1 && x[i].Controls?
      ensures Opens(x[i].keyword)
    {
      if i > 0 {
        assert x[i] == cs[i - 1] && ActAlike(acts[i - 1], cs[i - 1]);
      }
    }
  }

  /**
   * The file with the swallowed commit is reported as applied; if the next file fails before
   * it has ended a transaction itself, the work of both is undone.
   */
  lemma {:induction false} NextFailureUndoes(means: Reading, s: Session, t: string, u: string, j: nat)
    requires s.open.NoTxn? && ReadsOn(means, t) && CommentOpen(t) && PhaseOf(Asks(means, t)) == Phase.Pending(true)
    requires ReadsOn(means, u) && KeepsOpen(Asks(means, u), j) && (j == |Asks(means, u)| ==> !CommentOpen(u))
    ensures var r := ReplayOne(means, s, t, NoFault);
            && r.ok && r.session == Session(s.commits, InBlock(WorkOf(means, t))) && WorkOf(means, t) != NOTHING
            && ReplayOne(means, r.session, u, InBody(j + 1)) == Step(s, false)
  {
    hide Asks, Compose, CommentOpen, ReadsOn, Middle, PhaseOf, WorkTexts, KeepsOpen;
    LeftOpen(means, s, t);
    var y, q := Asks(means, Compose(u)), Session(s.commits, InBlock(WorkOf(means, t)));
    ComposedAsks(means, u);
    KeepsOpenWithin(Asks(means, u), Middle(means, u), if CommentOpen(u) then [] else [Controls(Commit)], j);
    StaysInBlock(q, y, j + 1);
    KeptTo(Asks(means, u), j);
    assert After(q, y, 0) == q && j + 1 < |y|;
    ExecIs(q, y, 0, InBody(j + 1));
  }

  lemma {:induction false} KeptTo(acts: seq<Act>, j: nat)
    requires KeepsOpen(acts, j)
    ensures j <= |acts|
  {
  }

  lemma {:induction false} LeftOpen(means: Reading, s: Session, t: string)
    requires s.open.NoTxn? && ReadsOn(means, t) && CommentOpen(t) && PhaseOf(Asks(means, t)) == Phase.Pending(true)
    ensures ReplayOne(means, s, t, NoFault) == Step(Session(s.commits, InBlock(WorkOf(means, t))), true)
    ensures WorkOf(means, t) != NOTHING
  {
    hide Asks, Compose, CommentOpen, ReadsOn, Middle, PhaseOf, WorkTexts;
    var x, mid := Asks(means, Compose(t)), Middle(means, t);
    ComposedAsks(means, t);
    AlikeActs(Asks(means, t), mid);
    assert x[1..|mid| + 1] == mid && |x| == |mid| + 1;
    assert After(s, x, 0) == s;
    ExecIs(s, x, 0, NoFault);
    StandsAfter(s, x, mid, |mid|);
    assert mid[..|mid|] == mid;
    PendingIffWork(mid);
  }

  /** There are such files: a comment behind the last semicolon, and no newline behind the comment. */
  lemma {:induction false} CommentOpenExists()
    ensures CommentOpen("A;--x")
  {
    var t := "A;--x";
    assert forall i :: 0 <= i < |t| ==> MatchEnd(Dollar, t, i).None? && MatchEnd(Block, t, i).None?;
    MatchlessPassIsIdentity(Dollar, t);
    MatchlessPassIsIdentity(Block, t);
    assert LineClose(t, 4) == LineClose(t, 5) == 5;
    assert LineEnd(t, 2) == Some(5);
    assert Marked(Line, t, 2, 4) && Marked(Line, t, 1, 4) && Marked(Line, t, 0, 4);
  }
}
