/** What replaying a chain reports of each file, said of the statements and of the outcomes before. */
module ChainOutcomes {
  import opened Text
  import opened MissingRelations

  /** The relation is there when file `k` begins: from the start, or created by a file before that succeeded. */
  ghost predicate There(chain: seq<SqlFile>, relations: set<string>, os: seq<Outcome>, k: nat, r: string)
    requires k <= |chain| && |os| == |chain|
  {
    r in relations || exists j :: 0 <= j < k && os[j].ok && CreatesBefore(chain[j].body, |chain[j].body|, r)
  }

  ghost predicate CreatesBefore(body: seq<Ddl>, n: nat, r: string) {
    exists i :: 0 <= i < n <= |body| && body[i] == Create(r)
  }

  /** Statement `i` of file `k` can be carried out where everything before it can. */
  ghost predicate Runs(chain: seq<SqlFile>, relations: set<string>, os: seq<Outcome>, k: nat, i: nat)
    requires k < |chain| && |os| == |chain|
  {
    i < |chain[k].body| &&
      match chain[k].body[i]
      case Need(r) => There(chain, relations, os, k, r) || CreatesBefore(chain[k].body, i, r)
      case Create(_) => true
      case Break => false
  }

  /** Statement `i` is the first that cannot. */
  ghost predicate StopsAt(chain: seq<SqlFile>, relations: set<string>, os: seq<Outcome>, k: nat, i: nat)
    requires k < |chain| && |os| == |chain|
  {
    && i < |chain[k].body| && !Runs(chain, relations, os, k, i)
    && forall x :: 0 <= x < i ==> Runs(chain, relations, os, k, x)
  }

  // ----- one body

  /** The statement can be carried out with these relations and what the body before it creates. */
  ghost predicate RunsWith(body: seq<Ddl>, i: nat, before: set<string>) {
    i < |body| &&
      match body[i]
      case Need(r) => r in before || CreatesBefore(body, i, r)
      case Create(_) => true
      case Break => false
  }

  ghost predicate CreatedThere(body: seq<Ddl>, i: nat, before: set<string>, now: set<string>) {
    forall r :: r in now <==> r in before || CreatesBefore(body, i, r)
  }

  lemma {:induction false} CreatesNext(body: seq<Ddl>, i: nat, r: string)
    requires i < |body|
    ensures CreatesBefore(body, i + 1, r) <==> CreatesBefore(body, i, r) || body[i] == Create(r)
  {
    if x :| 0 <= x < i + 1 && body[x] == Create(r) {
      assert x == i || CreatesBefore(body, i, r);
    }
  }

  lemma {:induction false} BodyRuns(body: seq<Ddl>, i: nat, before: set<string>, now: set<string>) returns (stop: nat)
    requires i <= |body| && CreatedThere(body, i, before, now)
    ensures i <= stop <= |body| && forall x :: i <= x < stop ==> RunsWith(body, x, before)
    ensures stop == |body| ==>
              RunBody(body, i, now).Applied? && CreatedThere(body, |body|, before, RunBody(body, i, now).relations)
    ensures stop < |body| ==>
              && !RunsWith(body, stop, before)
              && RunBody(body, i, now) == (match body[stop] case Need(r) => Missing(r) case _ => Failed)
    decreases |body| - i
  {
    hide CreatesBefore;
    stop := i;
    if i < |body| {
      forall r ensures CreatesBefore(body, i + 1, r) <==> CreatesBefore(body, i, r) || body[i] == Create(r) {
        CreatesNext(body, i, r);
      }
      match body[i]
      case Need(r) => if r in now { stop := BodyRuns(body, i + 1, before, now); }
      case Create(r) => stop := BodyRuns(body, i + 1, before, now + {r});
      case Break =>
    }
  }

  // ----- the chain

  lemma {:induction false} NothingBefore(body: seq<Ddl>, before: set<string>)
    ensures CreatedThere(body, 0, before, before)
  {
  }

  lemma {:induction false} OutcomesBefore(chain: seq<SqlFile>, relations: set<string>, k: nat)
    requires k < |chain|
    ensures Outcomes(chain, relations)[..k] == Outcomes(chain[..k], relations)
    ensures Outcomes(chain, relations)[k] == OutcomeOf(chain[k], AfterChain(chain[..k], relations))
    decreases |chain|
  {
    hide OutcomeOf, AfterChain;
    var n := |chain| - 1;
    if k < n {
      OutcomesBefore(chain[..n], relations, k);
      assert chain[..n][..k] == chain[..k];
      assert Outcomes(chain, relations)[..n] == Outcomes(chain[..n], relations);
      assert Outcomes(chain, relations)[..n][..k] == Outcomes(chain, relations)[..k];
    }
  }

  /** What is there when file `k` begins. */
  lemma {:induction false} AfterIs(chain: seq<SqlFile>, relations: set<string>, k: nat, r: string)
    requires k <= |chain|
    ensures r in AfterChain(chain[..k], relations) <==> There(chain, relations, Outcomes(chain, relations), k, r)
    decreases k
  {
    hide RunBody, CreatesBefore, Outcomes, AfterChain;
    var os := Outcomes(chain, relations);
    AfterUnfolds(chain, relations, k);
    if k > 0 {
      var f, before := chain[k - 1], AfterChain(chain[..k - 1], relations);
      AfterIs(chain, relations, k - 1, r);
      OutcomesBefore(chain, relations, k - 1);
      NothingBefore(f.body, before);
      var stop := BodyRuns(f.body, 0, before, before);
      assert os[k - 1].ok <==> RunBody(f.body, 0, before).Applied?;
      ThereNext(chain, relations, os, k - 1, r);
    }
  }

  lemma {:induction false} AfterUnfolds(chain: seq<SqlFile>, relations: set<string>, k: nat)
    requires k <= |chain|
    ensures AfterChain(chain[..k], relations)
         == if k == 0 then relations else AfterFile(chain[k - 1], AfterChain(chain[..k - 1], relations))
  {
    if k > 0 {
      assert chain[..k][..k - 1] == chain[..k - 1];
    }
  }

  lemma {:induction false} ThereNext(chain: seq<SqlFile>, relations: set<string>, os: seq<Outcome>, k: nat, r: string)
    requires k < |chain| && |os| == |chain|
    ensures There(chain, relations, os, k + 1, r)
       <==> There(chain, relations, os, k, r) || (os[k].ok && CreatesBefore(chain[k].body, |chain[k].body|, r))
  {
    hide CreatesBefore;
  }

  /**
   * A file succeeds if and only if each of its statements can be carried out; otherwise the
   * first that cannot decides: a need names the relation that is missing, a statement that
   * fails for another reason names none.
   */
  lemma {:induction false} OutcomesAre(chain: seq<SqlFile>, relations: set<string>, k: nat)
    requires k < |chain|
    ensures var os := Outcomes(chain, relations);
            && os[k].file == chain[k].name
            && (os[k].ok <==> forall i :: 0 <= i < |chain[k].body| ==> Runs(chain, relations, os, k, i))
            && (os[k].ok ==> os[k].missing == None)
            && forall i: nat :: StopsAt(chain, relations, os, k, i) ==>
                 os[k].missing == match chain[k].body[i] case Need(r) => Some(r) case _ => None
  {
    hide RunBody, CreatesBefore, Outcomes, AfterChain, There;
    var os, body, before := Outcomes(chain, relations), chain[k].body, AfterChain(chain[..k], relations);
    OutcomesBefore(chain, relations, k);
    NothingBefore(body, before);
    var stop := BodyRuns(body, 0, before, before);
    forall i | 0 <= i < |body|
      ensures Runs(chain, relations, os, k, i) <==> RunsWith(body, i, before)
    {
      if body[i].Need? {
        AfterIs(chain, relations, k, body[i].relation);
      }
    }
    assert forall i: nat :: StopsAt(chain, relations, os, k, i) ==> i == stop;
  }
}
