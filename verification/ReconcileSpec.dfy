/** What the reconciler's reader and writer do, said of the tokens of a block without their functions. */
module ReconcileSpec {
  import opened Text
  import opened Reconcile
  import opened ReconcileLaws

  // ----- the state that is read for a client

  /** Token `k` states a value for the client in so many words. */
  ghost predicate StatesAt(toks: seq<Tok>, client: string, k: nat) {
    k < |toks| && toks[k].Pair? && toks[k].client == client && client != "callers"
  }

  /** Token `k` spreads defaults that have a value for the client. */
  ghost predicate SpreadsAt(defaults: Defaults, toks: seq<Tok>, client: string, k: nat) {
    k < |toks| && toks[k].Spread? && toks[k].name in defaults && client in defaults[toks[k].name]
  }

  ghost predicate LastStated(toks: seq<Tok>, client: string, k: nat) {
    StatesAt(toks, client, k) && forall j: nat :: k < j ==> !StatesAt(toks, client, j)
  }

  ghost predicate LastSpread(defaults: Defaults, toks: seq<Tok>, client: string, k: nat) {
    SpreadsAt(defaults, toks, client, k) && forall j: nat :: k < j ==> !SpreadsAt(defaults, toks, client, j)
  }

  lemma {:induction false} SpreadsBefore(defaults: Defaults, toks: seq<Tok>, client: string)
    requires toks != []
    ensures var n := |toks| - 1;
            && (forall k: nat :: k < n ==>
                  (SpreadsAt(defaults, toks[..n], client, k) <==> SpreadsAt(defaults, toks, client, k)))
            && (SpreadsAt(defaults, toks, client, n) ==>
                  forall k: nat :: LastSpread(defaults, toks, client, k) ==> k == n)
            && (!SpreadsAt(defaults, toks, client, n) ==>
                  forall k: nat :: LastSpread(defaults, toks, client, k) ==> LastSpread(defaults, toks[..n], client, k))
  {
    var n := |toks| - 1;
    assert forall k: nat :: k < n ==> toks[..n][k] == toks[k];
  }

  lemma {:induction false} OneSpread(defaults: Defaults, toks: seq<Tok>, client: string)
    requires toks != []
    ensures var n := |toks| - 1;
            var s, before := SpreadStates(defaults, toks), SpreadStates(defaults, toks[..n]);
            if SpreadsAt(defaults, toks, client, n) then
              client in s && s[client] == defaults[toks[n].name][client]
            else (client in s <==> client in before) && (client in before ==> s[client] == before[client])
  {
  }

  lemma {:induction false} SpreadValue(defaults: Defaults, toks: seq<Tok>, client: string, k: nat)
    requires LastSpread(defaults, toks, client, k)
    ensures SpreadsAt(defaults, toks, client, k) && client in SpreadStates(defaults, toks)
    ensures SpreadStates(defaults, toks)[client] == defaults[toks[k].name][client]
    decreases |toks|
  {
    hide SpreadStates;
    var n := |toks| - 1;
    OneSpread(defaults, toks, client);
    if k < n {
      SpreadsBefore(defaults, toks, client);
      SpreadValue(defaults, toks[..n], client, k);
    }
  }

  lemma {:induction false} SpreadMember(defaults: Defaults, toks: seq<Tok>, client: string)
    ensures client in SpreadStates(defaults, toks) <==> exists k: nat :: SpreadsAt(defaults, toks, client, k)
    decreases |toks|
  {
    if toks == [] {
      assert SpreadStates(defaults, toks) == map[];
    } else {
      hide SpreadStates, SpreadsAt, LastSpread;
      var n := |toks| - 1;
      SpreadMember(defaults, toks[..n], client);
      OneSpread(defaults, toks, client);
      if k: nat :| SpreadsAt(defaults, toks, client, k) {
        SpreadInRange(defaults, toks, client, k);
        SpreadsBefore(defaults, toks, client);
        assert k == n || SpreadsAt(defaults, toks[..n], client, k);
      }
      if k: nat :| SpreadsAt(defaults, toks[..n], client, k) {
        SpreadInRange(defaults, toks[..n], client, k);
        SpreadsBefore(defaults, toks, client);
        assert SpreadsAt(defaults, toks, client, k);
      }
    }
  }

  lemma {:induction false} SpreadInRange(defaults: Defaults, toks: seq<Tok>, client: string, k: nat)
    requires SpreadsAt(defaults, toks, client, k)
    ensures k < |toks|
  {
  }

  lemma {:induction false} SpreadIs(defaults: Defaults, toks: seq<Tok>, client: string)
    ensures forall k: nat :: LastSpread(defaults, toks, client, k) ==>
              SpreadsAt(defaults, toks, client, k) && client in SpreadStates(defaults, toks)
              && SpreadStates(defaults, toks)[client] == defaults[toks[k].name][client]
    ensures client in SpreadStates(defaults, toks) <==> exists k: nat :: SpreadsAt(defaults, toks, client, k)
  {
    hide SpreadStates, LastSpread;
    SpreadMember(defaults, toks, client);
    forall k: nat | LastSpread(defaults, toks, client, k)
      ensures SpreadsAt(defaults, toks, client, k) && client in SpreadStates(defaults, toks)
      ensures SpreadStates(defaults, toks)[client] == defaults[toks[k].name][client]
    {
      SpreadValue(defaults, toks, client, k);
    }
  }

  lemma {:induction false} StatedBefore(toks: seq<Tok>, client: string)
    requires toks != []
    ensures var n := |toks| - 1;
            && (forall k: nat :: k < n ==> (StatesAt(toks[..n], client, k) <==> StatesAt(toks, client, k)))
            && (StatesAt(toks, client, n) ==> forall k: nat :: LastStated(toks, client, k) ==> k == n)
            && (!StatesAt(toks, client, n) ==>
                  forall k: nat :: LastStated(toks, client, k) ==> k < n && LastStated(toks[..n], client, k))
  {
    var n := |toks| - 1;
    assert forall k: nat :: k < n ==> toks[..n][k] == toks[k];
  }

  lemma {:induction false} OnePair(base: States, toks: seq<Tok>, client: string)
    requires toks != []
    ensures var n := |toks| - 1;
            var s, before := PairStates(base, toks), PairStates(base, toks[..n]);
            if StatesAt(toks, client, n) then client in s && s[client] == toks[n].value
            else (client in s <==> client in before) && (client in before ==> s[client] == before[client])
  {
  }

  lemma {:induction false} PairIs(base: States, toks: seq<Tok>, client: string)
    ensures forall k: nat :: LastStated(toks, client, k) ==>
              && k < |toks| && toks[k].Pair? && client in PairStates(base, toks)
              && PairStates(base, toks)[client] == toks[k].value
    ensures (forall k: nat :: !StatesAt(toks, client, k)) ==>
              && (client in PairStates(base, toks) <==> client in base)
              && (client in base ==> PairStates(base, toks)[client] == base[client])
    decreases |toks|
  {
    if toks != [] {
      hide PairStates, LastStated;
      var n := |toks| - 1;
      PairIs(base, toks[..n], client);
      OnePair(base, toks, client);
      StatedBefore(toks, client);
    } else {
      hide LastStated;
      NoneStated(client);
    }
  }

  lemma {:induction false} NoneStated(client: string)
    ensures forall k: nat :: !LastStated([], client, k)
  {
  }

  /**
   * The last pair that names the client decides; without one, the last spread whose defaults
   * have the client, which is then implied; without either, nothing is stated.
   */
  lemma {:induction false} StateIs(defaults: Defaults, toks: seq<Tok>, client: string)
    ensures forall k: nat :: LastStated(toks, client, k) ==>
              client in StatesOf(defaults, toks) && StatesOf(defaults, toks)[client] == toks[k].value
    ensures (forall j: nat :: !StatesAt(toks, client, j)) ==>
              (forall k: nat :: LastSpread(defaults, toks, client, k) ==>
                 && client in StatesOf(defaults, toks)
                 && StatesOf(defaults, toks)[client] == defaults[toks[k].name][client])
    ensures client in StatesOf(defaults, toks)
       <==> (exists k: nat :: StatesAt(toks, client, k)) || (exists k: nat :: SpreadsAt(defaults, toks, client, k))
    ensures client in ImpliedOf(defaults, toks)
       <==> (forall k: nat :: !StatesAt(toks, client, k)) && (exists k: nat :: SpreadsAt(defaults, toks, client, k))
  {
    hide SpreadStates, PairStates, LastStated, LastSpread, SpreadsAt;
    SpreadIs(defaults, toks, client);
    PairIs(SpreadStates(defaults, toks), toks, client);
    if k: nat :| StatesAt(toks, client, k) {
      var last := LastOf(toks, client, k);
    }
    assert HasPair(toks, client) <==> exists k: nat :: StatesAt(toks, client, k) by {
      if k :| 0 <= k < |toks| && toks[k].Pair? && toks[k].client == client && client != "callers" {
        assert StatesAt(toks, client, k);
      }
    }
  }

  lemma {:induction false} LastOf(toks: seq<Tok>, client: string, k: nat) returns (last: nat)
    requires StatesAt(toks, client, k)
    ensures LastStated(toks, client, last)
    decreases |toks| - k
  {
    if j: nat :| k < j && StatesAt(toks, client, j) {
      last := LastOf(toks, client, j);
    } else {
      last := k;
    }
  }

  // ----- where the writer writes

  /** Token `k` is the first one spelled `client: '...'` whose key ends with the client. */
  ghost predicate FirstEnding(toks: seq<Tok>, client: string, k: nat) {
    && k < |toks| && toks[k].Pair? && EndsWithName(toks[k], client)
    && forall j :: 0 <= j < k ==> !EndsWithName(toks[j], client)
  }

  ghost predicate EndsWithName(t: Tok, client: string) {
    t.Pair? && t.exact && exists before: string :: t.client == before + client
  }

  lemma {:induction false} MatchesIff(t: Tok, client: string)
    ensures WriterMatches(t, client) <==> EndsWithName(t, client)
  {
    if t.Pair? && EndsWith(t.client, client) {
      assert t.client == t.client[..|t.client| - |client|] + client;
    }
  }

  /** That token, and no other, gets the new value; a text without one stays. */
  lemma {:induction false} WriteIs(toks: seq<Tok>, client: string, next: string)
    ensures forall k: nat :: FirstEnding(toks, client, k) ==>
              WriteToks(toks, client, next) == toks[k := Pair(toks[k].client, next, true)]
    ensures (forall j :: 0 <= j < |toks| ==> !EndsWithName(toks[j], client)) ==> WriteToks(toks, client, next) == toks
  {
    hide WriterMatches, EndsWithName, WriteToks;
    WriteToksAt(toks, client, next);
    forall j | 0 <= j < |toks|
      ensures WriterMatches(toks[j], client) <==> EndsWithName(toks[j], client)
    {
      MatchesIff(toks[j], client);
    }
    forall k: nat | FirstEnding(toks, client, k)
      ensures WriteToks(toks, client, next) == toks[k := Pair(toks[k].client, next, true)]
    {
      assert FirstMatch(toks, client, k);
      MatchIsPair(toks[k], client);
    }
  }

  // ----- where a block closes

  /** Opening braces less closing ones. */
  function Net(toks: seq<Tok>): (n: int) {
    if toks == [] then 0
    else
      Net(toks[..|toks| - 1]) + (match toks[|toks| - 1] case Open => 1 case Close => -1 case _ => 0)
  }

  /** Closing brace `p` brings a count of `before` back to nothing. */
  ghost predicate Balances(before: int, toks: seq<Tok>, p: nat) {
    p < |toks| && toks[p].Close? && before + Net(toks[..p + 1]) == 0
  }

  /** Some closing brace does. */
  ghost predicate Closes(before: int, toks: seq<Tok>) {
    exists p: nat :: Balances(before, toks, p)
  }

  lemma {:induction false} NetHead(toks: seq<Tok>)
    requires toks != []
    ensures Net(toks) == (match toks[0] case Open => 1 case Close => -1 case _ => 0) + Net(toks[1..])
    decreases |toks|
  {
    var n := |toks| - 1;
    if n > 0 {
      NetHead(toks[..n]);
      assert toks[..n][1..] == toks[1..][..n - 1] && toks[1..][n - 1] == toks[n];
    } else {
      assert toks[..0] == [] && toks[1..] == [];
    }
  }

  lemma {:induction false} BalancesNext(before: int, toks: seq<Tok>, p: nat, after: int)
    requires toks != [] && after == before + (match toks[0] case Open => 1 case Close => -1 case _ => 0)
    ensures if p == 0 then Balances(before, toks, p) <==> toks[0].Close? && after == 0
            else Balances(before, toks, p) <==> Balances(after, toks[1..], p - 1)
  {
    if p < |toks| {
      NetHead(toks[..p + 1]);
      assert toks[..p + 1][1..] == toks[1..][..p];
      assert p == 0 ==> toks[1..][..0] == [];
    }
  }

  lemma {:induction false} ClosesNext(before: int, toks: seq<Tok>, after: int)
    requires toks != [] && after == before + (match toks[0] case Open => 1 case Close => -1 case _ => 0)
    ensures Closes(before, toks) <==> (toks[0].Close? && after == 0) || Closes(after, toks[1..])
  {
    hide Balances;
    if p: nat :| Balances(before, toks, p) {
      BalancesNext(before, toks, p, after);
    }
    if p: nat :| Balances(after, toks[1..], p) {
      BalancesNext(before, toks, p + 1, after);
    }
    BalancesNext(before, toks, 0, after);
  }

  lemma {:induction false} ScanIs(toks: seq<Tok>, depth: int)
    ensures ScanLine(toks, depth).Closed? <==> Closes(depth, toks)
    ensures ScanLine(toks, depth).Level? ==> ScanLine(toks, depth) == Level(depth + Net(toks))
    decreases |toks|
  {
    if toks != [] {
      hide Closes;
      var after := depth + (match toks[0] case Open => 1 case Close => -1 case _ => 0);
      NetHead(toks);
      ClosesNext(depth, toks, after);
      ScanIs(toks[1..], after);
    }
  }

  /** The net of the lines from `i` up to, but without, line `e`. */
  function NetOf(lines: seq<Line>, i: nat, e: nat): (n: int)
    requires i <= e <= |lines|
    decreases e - i
  {
    if i == e then 0 else Net(lines[i].toks) + NetOf(lines, i + 1, e)
  }

  ghost predicate ClosesIn(lines: seq<Line>, i: nat, e: nat, depth: int)
    requires i <= e < |lines|
  {
    Closes(depth + NetOf(lines, i, e), lines[e].toks)
  }

  ghost predicate ClosesFirstIn(lines: seq<Line>, i: nat, e: nat, depth: int) {
    i <= e < |lines| && ClosesIn(lines, i, e, depth) && forall x :: i <= x < e ==> !ClosesIn(lines, i, x, depth)
  }

  /** A block closes in the first line in which its braces are balanced by a closing one. */
  lemma {:induction false} ClosingIs(lines: seq<Line>, i: nat, depth: int, e: nat)
    requires i <= |lines|
    ensures ClosingFrom(lines, i, depth) == Some(e) <==> ClosesFirstIn(lines, i, e, depth)
    decreases |lines| - i
  {
    hide ScanLine, Net, Closes;
    if i < |lines| {
      ScanIs(lines[i].toks, depth);
      assert ClosesIn(lines, i, i, depth) <==> ScanLine(lines[i].toks, depth).Closed?;
      if ScanLine(lines[i].toks, depth).Level? {
        var d, n := depth + Net(lines[i].toks), i + 1;
        ClosingIs(lines, n, d, e);
        forall x | i < x < |lines|
          ensures ClosesIn(lines, i, x, depth) <==> ClosesIn(lines, n, x, d)
        {
          assert depth + NetOf(lines, i, x) == d + NetOf(lines, n, x);
        }
        if ClosesFirstIn(lines, i, e, depth) {
          assert ClosesIn(lines, i, e, depth) && e > i;
          assert ClosesIn(lines, n, e, d);
          forall x | n <= x < e
            ensures !ClosesIn(lines, n, x, d)
          {
            assert !ClosesIn(lines, i, x, depth);
          }
        }
        if ClosesFirstIn(lines, n, e, d) {
          forall x | i <= x < e
            ensures !ClosesIn(lines, i, x, depth)
          {
            assert x > i ==> !ClosesIn(lines, n, x, d);
          }
        }
      } else {
        assert ClosesFirstIn(lines, i, e, depth) <==> e == i;
      }
    }
  }

  // ----- calls without a row

  /** A call is an orphan exactly when no row has its key. */
  lemma {:induction false} OrphanIff(key: (string, string) -> string, keys: set<string>, rows: seq<Row>, k: string)
    ensures k in Orphans(key, keys, rows)
       <==> k in keys && forall x :: 0 <= x < |rows| ==> key(rows[x].method_, rows[x].path) != k
  {
    var answered := set x | 0 <= x < |rows| :: key(rows[x].method_, rows[x].path);
    assert Orphans(key, keys, rows) == keys - answered;
  }
}
