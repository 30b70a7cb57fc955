/**
 * Which bodies may run inside the runner's transaction: those that, once they have done
 * some work, neither end the transaction nor leave it behind.
 */
module Harmless {
  import opened Text
  import opened Scanner
  import opened SqlStatements
  import opened Database

  /** How far a body has got inside the runner's transaction; `open` says whether a block is open. */
  datatype Phase = Clean(open: bool) | Pending(open: bool) | Broken

  function Advance(p: Phase, a: Act): (q: Phase) {
    match p
    case Broken => Broken
    case Clean(open) =>
      (match a
       case Does(_) => Pending(open)
       case Controls(k) => Clean(Opens(k)))
    case Pending(open) =>
      (match a
       case Does(_) => Pending(open)
       case Controls(k) => if Opens(k) then Pending(true) else Broken)
  }

  /** The phase after `BEGIN` and the acts. */
  function PhaseOf(acts: seq<Act>): (p: Phase) {
    if acts == [] then Clean(true) else Advance(PhaseOf(acts[..|acts| - 1]), acts[|acts| - 1])
  }

  /** Nothing ends the transaction once work is pending, and pending work ends up inside a block. */
  predicate IsHarmless(acts: seq<Act>) {
    match PhaseOf(acts)
    case Broken => false
    case Pending(open) => open
    case Clean(_) => true
  }

  /** What is open after the first `j` acts of a body that has not broken anything. */
  function OpenAt(acts: seq<Act>, j: nat): (o: Open)
    requires j <= |acts|
  {
    match PhaseOf(acts[..j])
    case Clean(open) => if open then InBlock(NOTHING) else NoTxn
    case Pending(open) =>
      var t := Transaction(WorkTexts(acts[..j]), []);
      if open then InBlock(t) else Implicit(t)
    case Broken => NoTxn
  }

  lemma {:induction false} PhaseNext(acts: seq<Act>, j: nat)
    requires j < |acts|
    ensures PhaseOf(acts[..j + 1]) == Advance(PhaseOf(acts[..j]), acts[j])
  {
    assert acts[..j + 1][..j] == acts[..j];
  }

  /** Work is pending exactly when some was done. */
  lemma {:induction false} PendingIffWork(acts: seq<Act>)
    ensures PhaseOf(acts).Clean? ==> WorkTexts(acts) == []
    ensures PhaseOf(acts).Pending? ==> WorkTexts(acts) != []
  {
    if acts != [] {
      PendingIffWork(acts[..|acts| - 1]);
    }
  }

  lemma {:induction false} BrokenStays(acts: seq<Act>, j: nat)
    requires j <= |acts| && PhaseOf(acts[..j]).Broken?
    ensures PhaseOf(acts).Broken?
    decreases |acts| - j
  {
    if j < |acts| {
      PhaseNext(acts, j);
      BrokenStays(acts, j + 1);
    } else {
      assert acts[..j] == acts;
    }
  }

  /** Up to the point where it breaks something, a body commits nothing. */
  lemma {:induction false} StepInside(c: seq<Transaction>, acts: seq<Act>, j: nat)
    requires j < |acts| && !PhaseOf(acts[..j + 1]).Broken?
    ensures !PhaseOf(acts[..j]).Broken?
    ensures ExecAct(Session(c, OpenAt(acts, j)), acts[j]) == Session(c, OpenAt(acts, j + 1))
  {
    hide PhaseOf, WorkTexts;
    PhaseNext(acts, j);
    WorkTextsNext(acts, j);
    PendingIffWork(acts[..j]);
    var w := WorkTexts(acts[..j]);
    assert w + [] == w;
    assert acts[j].Does? && w == [] ==> w + [acts[j].text] == [acts[j].text];
  }

  /** A harmless body goes through every statement, the last included, without committing anything. */
  lemma {:induction false} HarmlessStep(c: seq<Transaction>, acts: seq<Act>, j: nat)
    requires j < |acts| && IsHarmless(acts)
    ensures ExecIn(Session(c, OpenAt(acts, j)), acts, j) == Session(c, OpenAt(acts, j + 1))
  {
    hide PhaseOf, ExecAct;
    if PhaseOf(acts[..j + 1]).Broken? {
      BrokenStays(acts, j + 1);
    }
    StepInside(c, acts, j);
    assert j + 1 == |acts| ==> acts[..j + 1] == acts;
  }

  lemma {:induction false} HarmlessEnd(acts: seq<Act>)
    requires IsHarmless(acts)
    ensures OpenAt(acts, 0) == InBlock(NOTHING)
    ensures OpenAt(acts, |acts|) == InBlock(Transaction(WorkTexts(acts), []))
         || (OpenAt(acts, |acts|) == NoTxn && WorkTexts(acts) == [])
  {
    assert acts[..|acts|] == acts && acts[..0] == [];
    PendingIffWork(acts);
  }

  /** Without a statement that ends a transaction a body is harmless, whatever else it contains. */
  lemma {:induction false} NothingEndsIsHarmless(acts: seq<Act>)
    requires forall j :: 0 <= j < |acts| && acts[j].Controls? ==> Opens(acts[j].keyword)
    ensures IsHarmless(acts) && PhaseOf(acts) in {Clean(true), Pending(true)}
  {
    if acts != [] {
      NothingEndsIsHarmless(acts[..|acts| - 1]);
    }
  }

  /** Without work a body is harmless, whatever it does to the transaction. */
  lemma {:induction false} NoWorkIsHarmless(acts: seq<Act>)
    requires WorkTexts(acts) == []
    ensures PhaseOf(acts).Clean?
  {
    if acts != [] {
      NoWorkIsHarmless(acts[..|acts| - 1]);
    }
  }
}
