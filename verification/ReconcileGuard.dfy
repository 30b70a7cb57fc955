/** The guard that refuses a contract file the reader could not read in full. */
module ReconcileGuard {
  import opened Text
  import opened Reconcile

  /** Every declared id, in order: counted by a pattern of its own. */
  function CountEntries(lines: seq<Line>): (ids: seq<string>) {
    if lines == [] then []
    else (if lines[0].tag.IdLine? then [lines[0].tag.id] else []) + CountEntries(lines[1..])
  }

  function SeenIds(rows: seq<Row>): (ids: set<string>) {
    set k | 0 <= k < |rows| :: rows[k].id
  }

  /** The declared ids that no row has. */
  function Missed(declared: seq<string>, seen: set<string>): (ids: seq<string>) {
    if declared == [] then []
    else
      var n := |declared| - 1;
      Missed(declared[..n], seen) + (if declared[n] in seen then [] else [declared[n]])
  }

  /** A `callers` block that closes opens at or after line `i`, before the next entry begins. */
  predicate BlockAhead(lines: seq<Line>, i: nat)
    requires i <= |lines|
    decreases |lines| - i
  {
    i < |lines| && match lines[i].tag
      case IdLine(_) => false
      case CallersLine => ClosingFrom(lines, i, 0).Some? || BlockAhead(lines, i + 1)
      case _ => BlockAhead(lines, i + 1)
  }

  /** The ids that the reader gets to see from line `i` on, with `id` the entry it is in. */
  function CoveredFrom(lines: seq<Line>, i: nat, id: string): (ids: set<string>)
    requires i <= |lines|
    decreases |lines| - i
  {
    if i == |lines| then {}
    else match lines[i].tag
      case IdLine(x) => CoveredFrom(lines, i + 1, x)
      case CallersLine =>
        if id == "" || ClosingFrom(lines, i, 0).None? then CoveredFrom(lines, i + 1, id)
        else {id} + CoveredFrom(lines, i + 1, "")
      case _ => CoveredFrom(lines, i + 1, id)
  }

  /** The indices rise, and are exactly those of the declared ids that no row has. */
  ghost predicate MissedAt(declared: seq<string>, seen: set<string>, at: seq<nat>) {
    && (forall x :: 0 <= x < |at| ==> at[x] < |declared|)
    && (forall x, y :: 0 <= x < y < |at| ==> at[x] < at[y])
    && forall k :: 0 <= k < |declared| ==> (k in at <==> declared[k] !in seen)
  }

  lemma {:induction false} MissedNext(declared: seq<string>, seen: set<string>, at: seq<nat>)
    requires declared != [] && MissedAt(declared[..|declared| - 1], seen, at)
    ensures var n := |declared| - 1;
            MissedAt(declared, seen, if declared[n] in seen then at else at + [n])
  {
    var n := |declared| - 1;
    assert forall k :: 0 <= k < n ==> declared[..n][k] == declared[k];
    assert n !in at;
  }

  /** `ids` are the declared ids at these indices. */
  ghost predicate Picks(declared: seq<string>, at: seq<nat>, ids: seq<string>) {
    |ids| == |at| && forall x :: 0 <= x < |at| ==> at[x] < |declared| && ids[x] == declared[at[x]]
  }

  lemma {:induction false} PicksNext(declared: seq<string>, at: seq<nat>, ids: seq<string>)
    requires declared != [] && Picks(declared[..|declared| - 1], at, ids)
    ensures var n := |declared| - 1; Picks(declared, at, ids) && Picks(declared, at + [n], ids + [declared[n]])
  {
    var n := |declared| - 1;
    forall x | 0 <= x < |at|
      ensures at[x] < n && ids[x] == declared[at[x]]
    {
      assert declared[..n][at[x]] == declared[at[x]];
    }
  }

  /** The ids that are named in a refusal are the declared ones that no row has, in their order. */
  lemma {:induction false} MissedAre(declared: seq<string>, seen: set<string>) returns (at: seq<nat>)
    ensures MissedAt(declared, seen, at) && Picks(declared, at, Missed(declared, seen))
    decreases |declared|
  {
    if declared == [] {
      at := [];
    } else {
      hide MissedAt, Picks;
      var n := |declared| - 1;
      at := MissedAre(declared[..n], seen);
      MissedNext(declared, seen, at);
      PicksNext(declared, at, Missed(declared[..n], seen));
      if declared[n] in seen {
        assert Missed(declared, seen) == Missed(declared[..n], seen) + [] == Missed(declared[..n], seen);
      } else {
        at := at + [n];
      }
    }
  }

  lemma {:induction false} SeenCons(row: Row, rows: seq<Row>)
    ensures SeenIds([row] + rows) == {row.id} + SeenIds(rows)
  {
    forall x
      ensures x in SeenIds([row] + rows) <==> x in {row.id} + SeenIds(rows)
    {
      assert ([row] + rows)[0] == row;
      assert forall k :: 0 <= k < |rows| ==> ([row] + rows)[k + 1] == rows[k];
    }
  }

  lemma {:induction false} SeenIsCovered(defaults: Defaults, lines: seq<Line>, i: nat, id: string, m: string, p: string)
    requires i <= |lines|
    ensures SeenIds(RowsFrom(defaults, lines, i, id, m, p)) == CoveredFrom(lines, i, id)
    decreases |lines| - i
  {
    hide ClosingFrom, SeenIds, RowAt;
    if i == |lines| {
      SeenNothing();
    } else {
      match lines[i].tag {
        case IdLine(x) => SeenIsCovered(defaults, lines, i + 1, x, "", "");
        case MethodLine(x) => SeenIsCovered(defaults, lines, i + 1, id, x, p);
        case PathLine(x) => SeenIsCovered(defaults, lines, i + 1, id, m, x);
        case OtherLine => SeenIsCovered(defaults, lines, i + 1, id, m, p);
        case CallersLine =>
          SeenIsCovered(defaults, lines, i + 1, id, m, p);
          SeenIsCovered(defaults, lines, i + 1, "", m, p);
          if e :| ClosingFrom(lines, i, 0) == Some(e) {
            RowNames(defaults, lines, i, e, id, m, p);
            SeenCons(RowAt(defaults, lines, i, e, id, m, p), RowsFrom(defaults, lines, i + 1, "", m, p));
          }
      }
    }
  }

  lemma {:induction false} SeenNothing()
    ensures SeenIds([]) == {}
  {
  }

  lemma {:induction false} RowNames(defaults: Defaults, lines: seq<Line>, i: nat, e: nat, id: string, m: string,
                                    p: string)
    requires i <= e < |lines|
    ensures RowAt(defaults, lines, i, e, id, m, p).id == id
  {
  }

  ghost predicate Opens(lines: seq<Line>, i: nat, x: string) {
    i < |lines| && lines[i].tag == IdLine(x)
  }

  ghost predicate OpensCovered(lines: seq<Line>, i: nat, x: string) {
    exists j: nat :: i <= j && Opens(lines, j, x) && BlockAhead(lines, j + 1)
  }

  /** What is seen is the current entry, if its block lies ahead, and every later entry whose block does. */
  lemma {:induction false} CoveredIff(lines: seq<Line>, i: nat, id: string, x: string)
    requires i <= |lines| && x != ""
    ensures x in CoveredFrom(lines, i, id) <==> (x == id && BlockAhead(lines, i)) || OpensCovered(lines, i, x)
    decreases |lines| - i
  {
    hide ClosingFrom;
    if i < |lines| {
      assert OpensCovered(lines, i, x)
             <==> (Opens(lines, i, x) && BlockAhead(lines, i + 1)) || OpensCovered(lines, i + 1, x);
      match lines[i].tag {
        case IdLine(y) => CoveredIff(lines, i + 1, y, x);
        case CallersLine =>
          CoveredIff(lines, i + 1, id, x);
          CoveredIff(lines, i + 1, "", x);
        case _ => CoveredIff(lines, i + 1, id, x);
      }
    }
  }

  lemma {:induction false} MissedNothingIff(declared: seq<string>, seen: set<string>)
    ensures Missed(declared, seen) == [] <==> forall x :: x in declared ==> x in seen
    decreases |declared|
  {
    if declared != [] {
      var n := |declared| - 1;
      MissedNothingIff(declared[..n], seen);
      assert declared == declared[..n] + [declared[n]];
    }
  }

  lemma {:induction false} DeclaredIff(lines: seq<Line>, x: string)
    ensures x in CountEntries(lines) <==> exists i: nat :: Opens(lines, i, x)
  {
    if lines != [] {
      DeclaredIff(lines[1..], x);
      if i: nat :| Opens(lines, i, x) {
        assert i == 0 || Opens(lines[1..], i - 1, x);
      }
      if i: nat :| Opens(lines[1..], i, x) {
        assert Opens(lines, i + 1, x);
      }
      if lines[0].tag == IdLine(x) {
        assert Opens(lines, 0, x);
      }
    }
  }

  /** The pattern of an id needs a character, and no two entries share an id. */
  ghost predicate ProperIds(lines: seq<Line>) {
    && (forall i: nat, x :: Opens(lines, i, x) ==> x != "")
    && forall i: nat, j: nat, x :: Opens(lines, i, x) && Opens(lines, j, x) ==> i == j
  }

  /**
   * The guard is exact: it passes if and only if every entry is followed, before the
   * next one, by a `callers` block that closes. No partial failure of the reader gets by.
   */
  lemma {:induction false} GuardIsCoverage(defaults: Defaults, lines: seq<Line>)
    requires ProperIds(lines)
    ensures Missed(CountEntries(lines), SeenIds(RowsFrom(defaults, lines, 0, "", "", ""))) == []
       <==> forall i: nat, x :: Opens(lines, i, x) ==> BlockAhead(lines, i + 1)
  {
    hide BlockAhead, RowsFrom, SeenIds, CountEntries, Missed;
    var declared, seen := CountEntries(lines), SeenIds(RowsFrom(defaults, lines, 0, "", "", ""));
    MissedNothingIff(declared, seen);
    forall i: nat, x | Opens(lines, i, x)
      ensures x in declared && (x in seen <==> BlockAhead(lines, i + 1))
    {
      DeclaredIff(lines, x);
      EntrySeenIff(defaults, lines, i, x);
    }
    forall x | x in declared
      ensures exists i: nat :: Opens(lines, i, x)
    {
      DeclaredIff(lines, x);
    }
  }

  lemma {:induction false} EntrySeenIff(defaults: Defaults, lines: seq<Line>, i: nat, x: string)
    requires ProperIds(lines) && Opens(lines, i, x)
    ensures x in SeenIds(RowsFrom(defaults, lines, 0, "", "", "")) <==> BlockAhead(lines, i + 1)
  {
    hide BlockAhead, CoveredFrom, RowsFrom, SeenIds;
    SeenIsCovered(defaults, lines, 0, "", "", "");
    CoveredIff(lines, 0, "", x);
    assert OpensCovered(lines, 0, x) <==> BlockAhead(lines, i + 1);
  }
}
