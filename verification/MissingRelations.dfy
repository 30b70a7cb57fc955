/** Enumerating what a chain of migrations needs and does not create. */
module MissingRelations {
  import opened Text

  /** A statement refers to a relation, or creates one if it is not there, or fails for some other reason. */
  datatype Ddl = Need(relation: string) | Create(relation: string) | Break

  datatype SqlFile = SqlFile(name: string, body: seq<Ddl>)

  /** A failure names the missing relation if that is what its message says. */
  datatype Outcome = Outcome(file: string, ok: bool, missing: Option<string>)

  // ----- one file in one transaction

  /** The relations after the body, or why it stopped. */
  datatype Attempt = Applied(relations: set<string>) | Missing(relation: string) | Failed

  function RunBody(body: seq<Ddl>, j: nat, relations: set<string>): (a: Attempt)
    requires j <= |body|
    decreases |body| - j
  {
    if j == |body| then Applied(relations)
    else match body[j]
      case Need(r) => if r in relations then RunBody(body, j + 1, relations) else Missing(r)
      case Create(r) => RunBody(body, j + 1, relations + {r})
      case Break => Failed
  }

  /** A failed file is rolled back. */
  function AfterFile(f: SqlFile, relations: set<string>): (after: set<string>) {
    match RunBody(f.body, 0, relations)
    case Applied(after) => after
    case _ => relations
  }

  function OutcomeOf(f: SqlFile, relations: set<string>): (o: Outcome) {
    match RunBody(f.body, 0, relations)
    case Applied(_) => Outcome(f.name, true, None)
    case Missing(r) => Outcome(f.name, false, Some(r))
    case Failed => Outcome(f.name, false, None)
  }

  function AfterChain(chain: seq<SqlFile>, relations: set<string>): (after: set<string>) {
    if chain == [] then relations
    else AfterFile(chain[|chain| - 1], AfterChain(chain[..|chain| - 1], relations))
  }

  /** Every file's outcome, in order; a failure does not stop the chain. */
  function Outcomes(chain: seq<SqlFile>, relations: set<string>): (os: seq<Outcome>)
    ensures |os| == |chain|
  {
    if chain == [] then []
    else Outcomes(chain[..|chain| - 1], relations) +
         [OutcomeOf(chain[|chain| - 1], AfterChain(chain[..|chain| - 1], relations))]
  }

  /** `applyChain`. With `stopOnFirstFailure` the outcomes end with the first failure. */
  method ApplyChain(chain: seq<SqlFile>, relations: set<string>, stopOnFirstFailure: bool)
    returns (outcomes: seq<Outcome>)
    ensures outcomes <= Outcomes(chain, relations)
    ensures !stopOnFirstFailure ==> outcomes == Outcomes(chain, relations)
    ensures stopOnFirstFailure ==>
      && (forall k :: 0 <= k < |outcomes| - 1 ==> outcomes[k].ok)
      && (|outcomes| == |chain| || (outcomes != [] && !outcomes[|outcomes| - 1].ok))
  {
    outcomes := [];
    var database := relations;
    var k := 0;
    while k < |chain|
      invariant 0 <= k <= |chain|
      invariant outcomes == Outcomes(chain[..k], relations) && database == AfterChain(chain[..k], relations)
      invariant stopOnFirstFailure ==> forall x :: 0 <= x < |outcomes| ==> outcomes[x].ok
    {
      assert chain[..k + 1][..k] == chain[..k];
      outcomes := outcomes + [OutcomeOf(chain[k], database)];
      if stopOnFirstFailure && !outcomes[k].ok {
        OutcomesPrefix(chain, relations, k + 1);
        return;
      }
      database := AfterFile(chain[k], database);
      k := k + 1;
    }
    assert chain[..k] == chain;
  }

  lemma {:induction false} OutcomesPrefix(chain: seq<SqlFile>, relations: set<string>, k: nat)
    requires k <= |chain|
    ensures Outcomes(chain[..k], relations) <= Outcomes(chain, relations)
    decreases |chain|
  {
    if k < |chain| {
      assert chain[..|chain| - 1][..k] == chain[..k];
      OutcomesPrefix(chain[..|chain| - 1], relations, k);
    } else {
      assert chain[..k] == chain;
    }
  }

  // ----- the fixpoint

  /** The relations that the chain refers to. */
  function Universe(chain: seq<SqlFile>): (u: set<string>) {
    set k, j | 0 <= k < |chain| && 0 <= j < |chain[k].body| && chain[k].body[j].Need? :: chain[k].body[j].relation
  }

  function MissingIn(os: seq<Outcome>): (m: set<string>) {
    set k | 0 <= k < |os| && os[k].missing.Some? :: os[k].missing.value
  }

  /** No file of the chain misses a relation when stand-ins for `known` exist. */
  predicate NothingUnmet(chain: seq<SqlFile>, known: set<string>) {
    forall k :: 0 <= k < |chain| ==> Outcomes(chain, known)[k].missing.None?
  }

  lemma {:induction false} NothingMissing(chain: seq<SqlFile>, known: set<string>)
    requires MissingIn(Outcomes(chain, known)) == {}
    ensures NothingUnmet(chain, known)
  {
    var os := Outcomes(chain, known);
    forall k | 0 <= k < |os| && os[k].missing.Some?
      ensures false
    {
      ReportedIsMissing(os, k);
    }
  }

  lemma {:induction false} ReportedIsMissing(os: seq<Outcome>, k: nat)
    requires k < |os| && os[k].missing.Some?
    ensures os[k].missing.value in MissingIn(os)
  {
  }

  lemma {:induction false} MissingIsNeeded(body: seq<Ddl>, j: nat, relations: set<string>)
    requires j <= |body|
    ensures match RunBody(body, j, relations)
            case Applied(after) => relations <= after
            case Missing(r) => r !in relations && exists x :: j <= x < |body| && body[x] == Need(r)
            case Failed => true
    decreases |body| - j
  {
    if j < |body| {
      match body[j]
      case Need(r) => if r in relations { MissingIsNeeded(body, j + 1, relations); }
      case Create(r) => MissingIsNeeded(body, j + 1, relations + {r});
      case Break =>
    }
  }

  lemma {:induction false} ChainOnlyGrows(chain: seq<SqlFile>, relations: set<string>)
    ensures relations <= AfterChain(chain, relations)
    decreases |chain|
  {
    if chain != [] {
      var n := |chain| - 1;
      ChainOnlyGrows(chain[..n], relations);
      MissingIsNeeded(chain[n].body, 0, AfterChain(chain[..n], relations));
    }
  }

  /** What a round reports missing is new, and is a relation the chain refers to. */
  lemma {:induction false} RoundFindsNew(chain: seq<SqlFile>, known: set<string>)
    ensures MissingIn(Outcomes(chain, known)) !! known
    ensures MissingIn(Outcomes(chain, known)) <= Universe(chain)
    decreases |chain|
  {
    forall k | 0 <= k < |chain| && Outcomes(chain, known)[k].missing.Some?
      ensures var r := Outcomes(chain, known)[k].missing.value; r !in known && r in Universe(chain)
    {
      OutcomeAt(chain, known, k);
      ChainOnlyGrows(chain[..k], known);
      MissingIsNeeded(chain[k].body, 0, AfterChain(chain[..k], known));
    }
  }

  lemma {:induction false} OutcomeAt(chain: seq<SqlFile>, relations: set<string>, k: nat)
    requires k < |chain|
    ensures Outcomes(chain, relations)[k] == OutcomeOf(chain[k], AfterChain(chain[..k], relations))
    decreases |chain|
  {
    var n := |chain| - 1;
    if k < n {
      OutcomeAt(chain[..n], relations, k);
      assert chain[..n][..k] == chain[..k];
    } else {
      assert chain[..k] == chain[..n];
    }
  }

  /** The known set after `n` rounds. */
  function Rounds(chain: seq<SqlFile>, n: nat): (known: set<string>) {
    if n == 0 then {} else Rounds(chain, n - 1) + MissingIn(Outcomes(chain, Rounds(chain, n - 1)))
  }

  lemma {:induction false} BoundedBySize(s: set<string>, u: set<string>)
    requires s <= u
    ensures |s| <= |u|
    ensures s != u ==> |s| < |u|
  {
    assert u == s + (u - s);
    assert |u| == |s| + |u - s|;
  }

  /** The inner loop of a round: adds what is new, and counts it. */
  method Merge(relations: set<string>, outcomes: seq<Outcome>) returns (known: set<string>, discovered: nat)
    ensures known == relations + MissingIn(outcomes)
    ensures discovered == 0 <==> known == relations
  {
    known := relations;
    discovered := 0;
    var k := 0;
    while k < |outcomes|
      invariant 0 <= k <= |outcomes|
      invariant known == relations + MissingIn(outcomes[..k])
      invariant discovered == 0 <==> known == relations
    {
      MissingInExtend(outcomes, k);
      if outcomes[k].missing.Some? && outcomes[k].missing.value !in known {
        known := known + {outcomes[k].missing.value};
        discovered := discovered + 1;
      }
      k := k + 1;
    }
    assert outcomes[..k] == outcomes;
  }

  /**
   * `enumerateMissingRelations`. The known set grows strictly in every round but the
   * last, so a chain that refers to `n` relations converges within `n + 1` rounds; and
   * convergence means that no file misses a relation once the returned ones exist.
   */
  method EnumerateMissingRelations(chain: seq<SqlFile>, maxRounds: nat)
    returns (relations: set<string>, rounds: nat, converged: bool)
    ensures relations <= Universe(chain) && (converged ==> rounds > 0)
    ensures relations == Rounds(chain, if converged then rounds - 1 else rounds)
    ensures rounds <= maxRounds && (!converged ==> rounds == maxRounds)
    ensures converged ==> NothingUnmet(chain, relations) && rounds <= |relations| + 1
    ensures !converged ==> maxRounds <= |relations|
    ensures |Universe(chain)| < maxRounds ==> converged
  {
    relations := {};
    rounds := 0;
    while rounds < maxRounds
      invariant rounds <= maxRounds && relations <= Universe(chain) && rounds <= |relations|
      invariant relations == Rounds(chain, rounds)
    {
      var outcomes := ApplyChain(chain, relations, false);
      RoundFindsNew(chain, relations);
      var known, discovered := Merge(relations, outcomes);
      if discovered == 0 {
        NothingMissing(chain, relations);
        return relations, rounds + 1, true;
      }
      BoundedBySize(relations, known);
      relations := known;
      rounds := rounds + 1;
    }
    BoundedBySize(relations, Universe(chain));
    converged := false;
  }

  lemma {:induction false} MissingInExtend(os: seq<Outcome>, k: nat)
    requires k < |os|
    ensures MissingIn(os[..k + 1]) == MissingIn(os[..k]) + (if os[k].missing.Some? then {os[k].missing.value} else {})
  {
    var more := os[..k + 1];
    assert more[k] == os[k];
    assert forall x :: 0 <= x < k ==> more[x] == os[..k][x];
  }

  // ----- what a chain needs from outside

  predicate Breaks(f: SqlFile) {
    exists j :: 0 <= j < |f.body| && f.body[j].Break?
  }

  function CreatedBy(f: SqlFile): (rs: set<string>) {
    set j | 0 <= j < |f.body| && f.body[j].Create? :: f.body[j].relation
  }

  /** What the files leave behind once every relation they miss is there. */
  function MadeBy(chain: seq<SqlFile>): (rs: set<string>) {
    if chain == [] then {}
    else
      var n := |chain| - 1;
      MadeBy(chain[..n]) + (if Breaks(chain[n]) then {} else CreatedBy(chain[n]))
  }

  /** What a body refers to from statement `j` on that is neither in `made` nor created by the body before. */
  function Unmade(body: seq<Ddl>, j: nat, made: set<string>): (rs: set<string>)
    requires j <= |body|
    decreases |body| - j
  {
    if j == |body| then {}
    else match body[j]
      case Need(r) => (if r in made then {} else {r}) + Unmade(body, j + 1, made)
      case Create(r) => Unmade(body, j + 1, made + {r})
      case Break => {}
  }

  /** The needs that nothing earlier in the chain or in the file creates. */
  function FreeNeeds(chain: seq<SqlFile>): (rs: set<string>) {
    if chain == [] then {}
    else
      var n := |chain| - 1;
      FreeNeeds(chain[..n]) + Unmade(chain[n].body, 0, MadeBy(chain[..n]))
  }

  lemma {:induction false} BodyMeets(body: seq<Ddl>, j: nat, known: set<string>, made: set<string>)
    requires j <= |body|
    ensures RunBody(body, j, known + made).Missing? <==> !(Unmade(body, j, made) <= known)
    ensures RunBody(body, j, known + made).Missing? ==>
              RunBody(body, j, known + made).relation in Unmade(body, j, made)
    decreases |body| - j
  {
    if j < |body| {
      match body[j]
      case Need(r) => BodyMeets(body, j + 1, known, made);
      case Create(r) =>
        assert (known + made) + {r} == known + (made + {r});
        BodyMeets(body, j + 1, known, made + {r});
      case Break =>
    }
  }

  function CreatedFrom(body: seq<Ddl>, j: nat): (rs: set<string>) {
    set x | j <= x < |body| && body[x].Create? :: body[x].relation
  }

  lemma {:induction false} BodyLeaves(body: seq<Ddl>, j: nat, relations: set<string>)
    requires j <= |body|
    ensures var a := RunBody(body, j, relations);
            && (a.Applied? ==> a.relations == relations + CreatedFrom(body, j))
            && (a.Applied? ==> forall x :: j <= x < |body| ==> !body[x].Break?)
            && (a.Failed? ==> exists x :: j <= x < |body| && body[x].Break?)
    decreases |body| - j
  {
    if j < |body| {
      assert CreatedFrom(body, j) == (if body[j].Create? then {body[j].relation} else {}) + CreatedFrom(body, j + 1);
      match body[j]
      case Need(r) => if r in relations { BodyLeaves(body, j + 1, relations); }
      case Create(r) => BodyLeaves(body, j + 1, relations + {r});
      case Break =>
    }
  }

  lemma {:induction false} FileLeaves(f: SqlFile, relations: set<string>)
    requires !RunBody(f.body, 0, relations).Missing?
    ensures AfterFile(f, relations) == relations + (if Breaks(f) then {} else CreatedBy(f))
  {
    BodyLeaves(f.body, 0, relations);
    assert CreatedFrom(f.body, 0) == CreatedBy(f);
  }

  /**
   * A set of stand-ins is enough for a chain, so that no file misses a relation, if and
   * only if it contains every need that nothing earlier creates.
   */
  lemma {:induction false} EnoughIffFreeNeeds(chain: seq<SqlFile>, known: set<string>)
    ensures NothingUnmet(chain, known) <==> FreeNeeds(chain) <= known
    ensures NothingUnmet(chain, known) ==> AfterChain(chain, known) == known + MadeBy(chain)
    decreases |chain|
  {
    hide MadeBy, FreeNeeds, AfterChain, RunBody, Unmade;
    if chain == [] {
      NothingNeeded(known);
    } else {
      var n := |chain| - 1;
      EnoughIffFreeNeeds(chain[..n], known);
      UnmetSplits(chain, known);
      ChainUnfolds(chain, known);
      if NothingUnmet(chain[..n], known) {
        BodyMeets(chain[n].body, 0, known, MadeBy(chain[..n]));
        if !RunBody(chain[n].body, 0, known + MadeBy(chain[..n])).Missing? {
          FileLeaves(chain[n], known + MadeBy(chain[..n]));
        }
      }
    }
  }

  lemma {:induction false} NothingNeeded(known: set<string>)
    ensures FreeNeeds([]) == {} && MadeBy([]) == {} && AfterChain([], known) == known
  {
  }

  lemma {:induction false} ChainUnfolds(chain: seq<SqlFile>, known: set<string>)
    requires chain != []
    ensures var n := |chain| - 1;
            && FreeNeeds(chain) == FreeNeeds(chain[..n]) + Unmade(chain[n].body, 0, MadeBy(chain[..n]))
            && MadeBy(chain) == MadeBy(chain[..n]) + (if Breaks(chain[n]) then {} else CreatedBy(chain[n]))
            && AfterChain(chain, known) == AfterFile(chain[n], AfterChain(chain[..n], known))
  {
  }

  lemma {:induction false} UnmetSplits(chain: seq<SqlFile>, known: set<string>)
    requires chain != []
    ensures var n := |chain| - 1;
            NothingUnmet(chain, known) <==>
              NothingUnmet(chain[..n], known) && !RunBody(chain[n].body, 0, AfterChain(chain[..n], known)).Missing?
  {
    hide RunBody, AfterChain;
    var n := |chain| - 1;
    var os := Outcomes(chain, known);
    assert os[..n] == Outcomes(chain[..n], known) && os[n] == OutcomeOf(chain[n], AfterChain(chain[..n], known));
    assert forall k :: 0 <= k < n ==> os[k] == os[..n][k];
  }

  // ----- is the returned set the least?

  /** Enough, and contained in everything that is enough. */
  ghost predicate IsLeast(chain: seq<SqlFile>, relations: set<string>) {
    && NothingUnmet(chain, relations)
    && forall known :: NothingUnmet(chain, known) ==> relations <= known
  }

  /** The needs of some file that an earlier file creates. */
  function FedNeeds(chain: seq<SqlFile>): (rs: set<string>) {
    if chain == [] then {}
    else
      var n := |chain| - 1;
      FedNeeds(chain[..n]) + Unmade(chain[n].body, 0, {}) * MadeBy(chain[..n])
  }

  /** What one round reports is a free need or one that an earlier file would have met. */
  lemma {:induction false} RoundWithin(chain: seq<SqlFile>, known: set<string>)
    ensures MissingIn(Outcomes(chain, known)) <= FreeNeeds(chain) + FedNeeds(chain)
    decreases |chain|
  {
    hide MadeBy, RunBody, AfterChain;
    if chain == [] {
    } else {
      var n := |chain| - 1;
      RoundWithin(chain[..n], known);
      MissingSplits(chain, known);
      var before := AfterChain(chain[..n], known);
      assert before + {} == before;
      BodyMeets(chain[n].body, 0, before, {});
      assert {} + MadeBy(chain[..n]) == MadeBy(chain[..n]);
      UnmadeOrMade(chain[n].body, 0, {}, MadeBy(chain[..n]));
    }
  }

  function MissedBy(f: SqlFile, relations: set<string>): (rs: set<string>) {
    var a := RunBody(f.body, 0, relations);
    if a.Missing? then {a.relation} else {}
  }

  lemma {:induction false} MissingSplits(chain: seq<SqlFile>, known: set<string>)
    requires chain != []
    ensures MissingIn(Outcomes(chain, known))
         == MissingIn(Outcomes(chain[..|chain| - 1], known))
            + MissedBy(chain[|chain| - 1], AfterChain(chain[..|chain| - 1], known))
  {
    hide RunBody, AfterChain;
    var n := |chain| - 1;
    var os := Outcomes(chain, known);
    assert os[..n] == Outcomes(chain[..n], known) && os[n] == OutcomeOf(chain[n], AfterChain(chain[..n], known));
    MissingInExtend(os, n);
    assert os[..n + 1] == os;
  }

  lemma {:induction false} UnmadeOrMade(body: seq<Ddl>, j: nat, own: set<string>, made: set<string>)
    requires j <= |body|
    ensures Unmade(body, j, own) <= Unmade(body, j, own + made) + made
    ensures Unmade(body, j, own + made) == Unmade(body, j, own) - made
    decreases |body| - j
  {
    if j < |body| {
      match body[j]
      case Need(r) => UnmadeOrMade(body, j + 1, own, made);
      case Create(r) =>
        assert (own + made) + {r} == (own + {r}) + made;
        UnmadeOrMade(body, j + 1, own + {r}, made);
      case Break =>
    }
  }

  lemma {:induction false} RoundsWithin(chain: seq<SqlFile>, n: nat)
    ensures Rounds(chain, n) <= FreeNeeds(chain) + FedNeeds(chain)
    decreases n
  {
    if n > 0 {
      RoundsWithin(chain, n - 1);
      RoundWithin(chain, Rounds(chain, n - 1));
    }
  }

  /**
   * What a converged enumeration returns, for every chain: all free needs, and besides
   * them only needs that an earlier file meets. It is the least set that is enough if and
   * only if it is the set of free needs.
   */
  lemma {:induction false} ConvergedIs(chain: seq<SqlFile>, n: nat)
    requires Rounds(chain, n + 1) == Rounds(chain, n)
    ensures NothingUnmet(chain, Rounds(chain, n)) && FreeNeeds(chain) <= Rounds(chain, n)
    ensures Rounds(chain, n) - FreeNeeds(chain) <= FedNeeds(chain)
    ensures IsLeast(chain, Rounds(chain, n)) <==> Rounds(chain, n) == FreeNeeds(chain)
  {
    hide NothingUnmet, FreeNeeds, FedNeeds, Outcomes;
    var rs := Rounds(chain, n);
    RoundFindsNew(chain, rs);
    assert MissingIn(Outcomes(chain, rs)) == {};
    NothingMissing(chain, rs);
    EnoughIffFreeNeeds(chain, rs);
    EnoughIffFreeNeeds(chain, FreeNeeds(chain));
    RoundsWithin(chain, n);
    forall known | NothingUnmet(chain, known)
      ensures FreeNeeds(chain) <= known
    {
      EnoughIffFreeNeeds(chain, known);
    }
  }

  /**
   * Exactly when the returned set is the least: in no round does a file stop at a need that only an
   * earlier file meets.
   */
  lemma {:induction false} LeastIffEveryRound(chain: seq<SqlFile>, n: nat)
    requires Rounds(chain, n + 1) == Rounds(chain, n)
    ensures IsLeast(chain, Rounds(chain, n))
       <==> forall k: nat :: k < n ==> MissingIn(Outcomes(chain, Rounds(chain, k))) <= FreeNeeds(chain)
  {
    hide IsLeast, FreeNeeds, Outcomes;
    ConvergedIs(chain, n);
    WithinIffEveryRound(chain, n);
  }

  lemma {:induction false} WithinIffEveryRound(chain: seq<SqlFile>, n: nat)
    ensures Rounds(chain, n) <= FreeNeeds(chain)
       <==> forall k: nat :: k < n ==> MissingIn(Outcomes(chain, Rounds(chain, k))) <= FreeNeeds(chain)
    decreases n
  {
    hide FreeNeeds, Outcomes, MissingIn;
    if n > 0 {
      WithinIffEveryRound(chain, n - 1);
    }
  }

  /** What is created by files whose own needs such files meet: it is there in every round. */
  function FirmlyMade(chain: seq<SqlFile>): (rs: set<string>) {
    if chain == [] then {}
    else
      var n := |chain| - 1;
      var before := FirmlyMade(chain[..n]);
      before + (if Breaks(chain[n]) || Unmade(chain[n].body, 0, before) != {} then {} else CreatedBy(chain[n]))
  }

  /** Files may feed one another, as long as whatever feeds needs nothing from outside. */
  ghost predicate FedFirmly(chain: seq<SqlFile>) {
    forall k :: 0 <= k < |chain| ==> Unmade(chain[k].body, 0, {}) * MadeBy(chain[..k]) <= FirmlyMade(chain[..k])
  }

  lemma {:induction false} FirmIsThere(chain: seq<SqlFile>, known: set<string>)
    ensures FirmlyMade(chain) <= AfterChain(chain, known)
    decreases |chain|
  {
    hide RunBody;
    if chain != [] {
      var n := |chain| - 1;
      FirmIsThere(chain[..n], known);
      var before, firm := AfterChain(chain[..n], known), FirmlyMade(chain[..n]);
      assert before + firm == before;
      BodyMeets(chain[n].body, 0, before, firm);
      if RunBody(chain[n].body, 0, before).Missing? {
        MissingIsNeeded(chain[n].body, 0, before);
      } else {
        FileLeaves(chain[n], before);
      }
      ChainOnlyGrows(chain, known);
      AfterKeeps(chain[n], before);
    }
  }

  lemma {:induction false} AfterKeeps(f: SqlFile, relations: set<string>)
    ensures relations <= AfterFile(f, relations)
  {
    MissingIsNeeded(f.body, 0, relations);
  }

  lemma {:induction false} FirmRound(chain: seq<SqlFile>, known: set<string>)
    requires FedFirmly(chain)
    ensures MissingIn(Outcomes(chain, known)) <= FreeNeeds(chain)
    decreases |chain|
  {
    hide MadeBy, RunBody, AfterChain, FirmlyMade, Unmade;
    if chain != [] {
      var n := |chain| - 1;
      FirmPrefix(chain);
      FirmRound(chain[..n], known);
      MissingSplits(chain, known);
      FirmIsThere(chain[..n], known);
      var before := AfterChain(chain[..n], known);
      assert before + {} == before;
      BodyMeets(chain[n].body, 0, before, {});
      assert {} + MadeBy(chain[..n]) == MadeBy(chain[..n]);
      UnmadeOrMade(chain[n].body, 0, {}, MadeBy(chain[..n]));
      if RunBody(chain[n].body, 0, before).Missing? {
        MissingIsNeeded(chain[n].body, 0, before);
        MissedIsAbsent(chain[n].body, before);
      }
    }
  }

  lemma {:induction false} MissedIsAbsent(body: seq<Ddl>, relations: set<string>)
    requires RunBody(body, 0, relations).Missing?
    ensures RunBody(body, 0, relations).relation !in relations
  {
    MissingIsNeeded(body, 0, relations);
  }

  lemma {:induction false} FirmPrefix(chain: seq<SqlFile>)
    requires chain != [] && FedFirmly(chain)
    ensures FedFirmly(chain[..|chain| - 1])
  {
    var n := |chain| - 1;
    forall k | 0 <= k < n
      ensures Unmade(chain[..n][k].body, 0, {}) * MadeBy(chain[..n][..k]) <= FirmlyMade(chain[..n][..k])
    {
      assert chain[..n][..k] == chain[..k];
    }
  }

  /**
   * When every need that an earlier file meets is met by a file that needs nothing from
   * outside, no round reports more than the free needs, and a converged enumeration
   * returns the least set that is enough.
   */
  lemma {:induction false} EnumerationIsLeast(chain: seq<SqlFile>, n: nat)
    requires FedFirmly(chain)
    ensures Rounds(chain, n) <= FreeNeeds(chain)
    ensures Rounds(chain, n + 1) == Rounds(chain, n) ==>
              Rounds(chain, n) == FreeNeeds(chain) && IsLeast(chain, Rounds(chain, n))
    decreases n
  {
    hide FedFirmly, FreeNeeds, IsLeast;
    if n > 0 {
      EnumerationIsLeast(chain, n - 1);
      FirmRound(chain, Rounds(chain, n - 1));
    }
    if Rounds(chain, n + 1) == Rounds(chain, n) {
      ConvergedIs(chain, n);
    }
  }

  const FEEDING: seq<SqlFile> := [SqlFile("1", [Need("a"), Create("b")]), SqlFile("2", [Need("b")])]

  /**
   * Otherwise it can return more than is needed: here `a` alone is enough and free, but
   * the first round also reports `b`, which the chain itself would have created.
   */
  lemma {:induction false} EnumerationIsNotAlwaysLeast()
    ensures NothingUnmet(FEEDING, {"a"})
    ensures Rounds(FEEDING, 1) == {"a", "b"}
  {
    var one, two := FEEDING[0], FEEDING[1];
    assert FEEDING[..1] == [one] && [one][..0] == [];
    assert RunBody(one.body, 0, {"a"}) == Applied({"a", "b"}) by {
      assert {"a"} + {"b"} == {"a", "b"};
    }
    assert RunBody(two.body, 0, {"a", "b"}) == Applied({"a", "b"});
    TwoFiles({"a"});
    TwoFiles({});
    assert RunBody(one.body, 0, {}) == Missing("a");
    assert RunBody(two.body, 0, {}) == Missing("b");
    var os := Outcomes(FEEDING, {});
    assert os[0].missing.value == "a" && os[1].missing.value == "b";
    assert MissingIn(os) == {"a", "b"};
  }

  lemma {:induction false} TwoFiles(relations: set<string>)
    ensures Outcomes(FEEDING, relations)
         == [OutcomeOf(FEEDING[0], relations), OutcomeOf(FEEDING[1], AfterFile(FEEDING[0], relations))]
  {
    assert FEEDING[..1] == [FEEDING[0]] && [FEEDING[0]][..0] == [];
  }
}
