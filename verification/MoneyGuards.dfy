/** Routes to one money capability must have comparable guards. */
module MoneyGuards {
  import opened Permissions

  datatype Route = Route(verb: string, fullPath: string, permissions: seq<string>, capabilities: seq<string>)

  predicate StartsWith(s: string, prefix: string) {
    |prefix| <= |s| && s[..|prefix|] == prefix
  }

  const MONEY_MODULES: seq<string> := [
    "src/services/disbursement.service.ts", "src/services/adminFinanceService.ts", "src/services/finance/"
  ]

  predicate IsMoney(capability: string) {
    exists k :: 0 <= k < |MONEY_MODULES| && StartsWith(capability, MONEY_MODULES[k])
  }

  /** The capability is a name in one of the two money services, or anywhere in the finance directory. */
  ghost predicate AboutMoney(capability: string) {
    exists rest: string ::
      || capability == "src/services/disbursement.service.ts" + rest
      || capability == "src/services/adminFinanceService.ts" + rest
      || capability == "src/services/finance/" + rest
  }

  lemma {:induction false} StartsWithIff(s: string, prefix: string)
    ensures StartsWith(s, prefix) <==> exists rest :: s == prefix + rest
  {
    if StartsWith(s, prefix) {
      assert s == prefix + s[|prefix|..];
    }
  }

  lemma {:induction false} MoneyIff(capability: string)
    ensures IsMoney(capability) <==> AboutMoney(capability)
  {
    hide StartsWith;
    StartsWithIff(capability, "src/services/disbursement.service.ts");
    StartsWithIff(capability, "src/services/adminFinanceService.ts");
    StartsWithIff(capability, "src/services/finance/");
    assert |MONEY_MODULES| == 3;
    assert MONEY_MODULES[0] == "src/services/disbursement.service.ts";
    assert MONEY_MODULES[1] == "src/services/adminFinanceService.ts";
    assert MONEY_MODULES[2] == "src/services/finance/";
  }

  datatype Pair = Pair(capability: string, a: Route, b: Route)

  /** The route, once for each time it lists the capability. */
  function Times(route: Route, capabilities: seq<string>, capability: string): (rs: seq<Route>) {
    if capabilities == [] then []
    else Times(route, capabilities[..|capabilities| - 1], capability) +
         (if capabilities[|capabilities| - 1] == capability then [route] else [])
  }

  /** The routes that reach `capability`, in order. */
  function Reaching(routes: seq<Route>, capability: string): (rs: seq<Route>) {
    if routes == [] then []
    else
      var last := routes[|routes| - 1];
      Reaching(routes[..|routes| - 1], capability) + Times(last, last.capabilities, capability)
  }

  // ----- grouping by capability

  type Groups = map<string, seq<Route>>

  function GroupOf(groups: Groups, capability: string): (rs: seq<Route>) {
    if capability in groups then groups[capability] else []
  }

  /** The money capabilities in the order in which they first appear, those of `order` first. */
  function AddNew(order: seq<string>, capabilities: seq<string>): (r: seq<string>) {
    if capabilities == [] then order
    else
      var n := |capabilities| - 1;
      var before := AddNew(order, capabilities[..n]);
      if IsMoney(capabilities[n]) && capabilities[n] !in before then before + [capabilities[n]] else before
  }

  function OrderOf(routes: seq<Route>): (order: seq<string>) {
    if routes == [] then []
    else AddNew(OrderOf(routes[..|routes| - 1]), routes[|routes| - 1].capabilities)
  }

  /**
   * The grouping holds every money capability of `routes`, and of `route` as far as
   * its capabilities `done` go, with the routes that reach it; `order` is insertion order.
   */
  ghost predicate Grouped(order: seq<string>, groups: Groups, routes: seq<Route>, route: Route, done: seq<string>) {
    && order == AddNew(OrderOf(routes), done)
    && (forall c :: c in order <==> c in groups)
    && (forall c :: c in groups ==> IsMoney(c))
    && (forall c :: IsMoney(c) ==> GroupOf(groups, c) == Reaching(routes, c) + Times(route, done, c))
  }

  lemma {:induction false} TimesNext(route: Route, done: seq<string>, c: string, d: string)
    ensures Times(route, done + [c], d) == Times(route, done, d) + (if c == d then [route] else [])
  {
    assert (done + [c])[..|done|] == done;
  }

  lemma {:induction false} AddNewNext(order: seq<string>, done: seq<string>, c: string)
    ensures var before := AddNew(order, done);
            AddNew(order, done + [c]) == if IsMoney(c) && c !in before then before + [c] else before
  {
    hide IsMoney;
    assert (done + [c])[..|done|] == done;
  }

  lemma {:induction false} NothingNew(order: seq<string>, capabilities: seq<string>)
    requires forall k :: 0 <= k < |capabilities| ==> !IsMoney(capabilities[k])
    ensures AddNew(order, capabilities) == order
    decreases |capabilities|
  {
    hide IsMoney;
    if capabilities != [] {
      NothingNew(order, capabilities[..|capabilities| - 1]);
    }
  }

  lemma {:induction false} OrderNext(routes: seq<Route>, route: Route)
    ensures OrderOf(routes + [route]) == AddNew(OrderOf(routes), route.capabilities)
    ensures AddNew(OrderOf(routes + [route]), []) == OrderOf(routes + [route])
  {
    assert (routes + [route])[..|routes|] == routes;
  }

  /** A capability that is not about money is skipped. */
  lemma {:induction false} OtherCapability(order: seq<string>, groups: Groups, routes: seq<Route>, route: Route,
                                           done: seq<string>, c: string)
    requires Grouped(order, groups, routes, route, done) && !IsMoney(c)
    ensures Grouped(order, groups, routes, route, done + [c])
  {
    hide IsMoney, Reaching, Times, GroupOf, AddNew;
    AddNewNext(OrderOf(routes), done, c);
    forall d | IsMoney(d)
      ensures Times(route, done + [c], d) == Times(route, done, d)
    {
      TimesNext(route, done, c, d);
    }
  }

  /** A money capability has the route pushed on its list. */
  lemma {:induction false} MoneyCapability(order: seq<string>, groups: Groups, routes: seq<Route>, route: Route,
                                           done: seq<string>, c: string)
    requires Grouped(order, groups, routes, route, done) && IsMoney(c)
    ensures Grouped(if c in groups then order else order + [c], groups[c := GroupOf(groups, c) + [route]],
                    routes, route, done + [c])
  {
    hide IsMoney, Reaching, Times, AddNew;
    AddNewNext(OrderOf(routes), done, c);
    var groups' := groups[c := GroupOf(groups, c) + [route]];
    forall d | IsMoney(d)
      ensures GroupOf(groups', d) == Reaching(routes, d) + Times(route, done + [c], d)
    {
      TimesNext(route, done, c, d);
      assert GroupOf(groups, d) == Reaching(routes, d) + Times(route, done, d);
    }
  }

  lemma {:induction false} OneRoute(order: seq<string>, groups: Groups, routes: seq<Route>, route: Route, next: Route)
    requires Grouped(order, groups, routes, route, route.capabilities)
    ensures Grouped(order, groups, routes + [route], next, [])
  {
    hide IsMoney, Times, AddNew, OrderOf;
    OrderNext(routes, route);
    assert (routes + [route])[..|routes|] == routes;
    assert forall c :: Times(next, [], c) == [] by {
      forall c { NoTimes(next, c); }
    }
  }

  lemma {:induction false} NoTimes(route: Route, c: string)
    ensures Times(route, [], c) == []
  {
  }

  method AddRoute(order: seq<string>, groups: Groups, ghost routes: seq<Route>, route: Route)
    returns (order': seq<string>, groups': Groups)
    requires Grouped(order, groups, routes, route, [])
    ensures Grouped(order', groups', routes, route, route.capabilities)
  {
    hide *;
    order', groups' := order, groups;
    var k := 0;
    assert route.capabilities[..0] == [];
    while k < |route.capabilities|
      invariant 0 <= k <= |route.capabilities|
      invariant Grouped(order', groups', routes, route, route.capabilities[..k])
    {
      var c := route.capabilities[k];
      assert route.capabilities[..k] + [c] == route.capabilities[..k + 1];
      if IsMoney(c) {
        MoneyCapability(order', groups', routes, route, route.capabilities[..k], c);
        if c !in groups' {
          order', groups' := order' + [c], groups'[c := GroupOf(groups', c) + [route]];
        } else {
          groups' := groups'[c := GroupOf(groups', c) + [route]];
        }
      } else {
        OtherCapability(order', groups', routes, route, route.capabilities[..k], c);
      }
      k := k + 1;
    }
    assert route.capabilities[..k] == route.capabilities;
  }

  predicate TouchesMoney(route: Route) {
    exists k :: 0 <= k < |route.capabilities| && IsMoney(route.capabilities[k])
  }

  lemma {:induction false} NoMoneyNoTimes(route: Route, capabilities: seq<string>, c: string)
    requires IsMoney(c) && forall k :: 0 <= k < |capabilities| ==> !IsMoney(capabilities[k])
    ensures Times(route, capabilities, c) == []
    decreases |capabilities|
  {
    if capabilities != [] {
      NoMoneyNoTimes(route, capabilities[..|capabilities| - 1], c);
    }
  }

  lemma {:induction false} SkippedRoute(order: seq<string>, groups: Groups, routes: seq<Route>, route: Route)
    requires Grouped(order, groups, routes, route, []) && !TouchesMoney(route)
    ensures Grouped(order, groups, routes, route, route.capabilities)
  {
    hide IsMoney;
    NothingNew(OrderOf(routes), route.capabilities);
    forall c | IsMoney(c)
      ensures Times(route, route.capabilities, c) == [] == Times(route, [], c)
    {
      NoMoneyNoTimes(route, route.capabilities, c);
    }
  }

  lemma {:induction false} NextRoute(order: seq<string>, groups: Groups, routes: seq<Route>, route: Route, next: Route)
    requires Grouped(order, groups, routes, route, [])
    ensures Grouped(order, groups, routes, next, [])
  {
    hide IsMoney, Reaching;
    forall c
      ensures Times(route, [], c) == [] == Times(next, [], c)
    {
    }
  }

  method GroupByCapability(routes: seq<Route>) returns (order: seq<string>, groups: Groups)
    ensures order == OrderOf(routes)
    ensures forall c :: c in order <==> c in groups
    ensures forall c :: c in groups ==> AboutMoney(c)
    ensures forall c :: AboutMoney(c) ==> GroupOf(groups, c) == Reaching(routes, c)
  {
    hide IsMoney, AboutMoney;
    forall c { MoneyIff(c); }
    order, groups := [], map[];
    var none := Route("", "", [], []);
    var k := 0;
    while k < |routes|
      invariant 0 <= k <= |routes|
      invariant Grouped(order, groups, routes[..k], none, [])
    {
      hide Grouped, TouchesMoney;
      NextRoute(order, groups, routes[..k], none, routes[k]);
      if TouchesMoney(routes[k]) {
        order, groups := AddRoute(order, groups, routes[..k], routes[k]);
      } else {
        SkippedRoute(order, groups, routes[..k], routes[k]);
      }
      OneRoute(order, groups, routes[..k], routes[k], none);
      assert routes[..k] + [routes[k]] == routes[..k + 1];
      k := k + 1;
    }
    assert routes[..k] == routes;
    forall c { NoTimes(none, c); }
  }

  // ----- the pairs

  /** Each of the two routes demands something, requirements included, that the other does not. */
  ghost predicate Incomparable(rq: Requires, a: Route, b: Route) {
    && !(Closure(rq, a.permissions) <= Closure(rq, b.permissions))
    && !(Closure(rq, b.permissions) <= Closure(rq, a.permissions))
  }

  method Comparable(rq: Requires, a: Route, b: Route) returns (yes: bool)
    ensures yes <==> !Incomparable(rq, a, b)
  {
    var ca := ClosureOf(a.permissions, rq);
    var cb := ClosureOf(b.permissions, rq);
    ClosureExists(rq, a.permissions);
    ClosureExists(rq, b.permissions);
    ClosureIsUnique(rq, Elements(a.permissions), ca, Closure(rq, a.permissions));
    ClosureIsUnique(rq, Elements(b.permissions), cb, Closure(rq, b.permissions));
    yes := cb <= ca || ca <= cb;
  }

  /** The pair is the `i`th and a later, `j`th, route to one capability, and the two are incomparable. */
  ghost predicate IncomparableAt(rq: Requires, c: string, list: seq<Route>, i: int, j: int, p: Pair) {
    0 <= i < j < |list| && Incomparable(rq, list[i], list[j]) && p == Pair(c, list[i], list[j])
  }

  /** The `i`th route with each of the next ones, up to the `n`th, that it is not comparable with. */
  ghost function PairsWith(rq: Requires, c: string, list: seq<Route>, i: nat, n: nat): (ps: seq<Pair>)
    requires i < n <= |list|
    decreases n
  {
    if n == i + 1 then []
    else
      PairsWith(rq, c, list, i, n - 1)
      + (if Incomparable(rq, list[i], list[n - 1]) then [Pair(c, list[i], list[n - 1])] else [])
  }

  /** The pairs that begin with one of the first `n` routes. */
  ghost function PairsBefore(rq: Requires, c: string, list: seq<Route>, n: nat): (ps: seq<Pair>)
    requires n <= |list|
    decreases n
  {
    if n == 0 then [] else PairsBefore(rq, c, list, n - 1) + PairsWith(rq, c, list, n - 1, |list|)
  }

  ghost function PairsOf(rq: Requires, c: string, list: seq<Route>): (ps: seq<Pair>) {
    PairsBefore(rq, c, list, |list|)
  }

  /** The report, capability by capability. */
  ghost function ReportOf(rq: Requires, order: seq<string>, routes: seq<Route>): (ps: seq<Pair>) {
    if order == [] then []
    else
      var c := order[|order| - 1];
      ReportOf(rq, order[..|order| - 1], routes) + PairsOf(rq, c, Reaching(routes, c))
  }

  ghost predicate IncomparablePair(rq: Requires, c: string, list: seq<Route>, p: Pair) {
    exists i, j :: IncomparableAt(rq, c, list, i, j, p)
  }

  lemma {:induction false} PairsWithAre(rq: Requires, c: string, list: seq<Route>, i: nat, n: nat)
    requires i < n <= |list|
    ensures forall p :: p in PairsWith(rq, c, list, i, n) <==> exists j :: j < n && IncomparableAt(rq, c, list, i, j, p)
    decreases n
  {
    hide Incomparable;
    if n > i + 1 {
      PairsWithAre(rq, c, list, i, n - 1);
      forall p
        ensures p in PairsWith(rq, c, list, i, n) <==> exists j :: j < n && IncomparableAt(rq, c, list, i, j, p)
      {
        if IncomparableAt(rq, c, list, i, n - 1, p) {
          assert p in PairsWith(rq, c, list, i, n);
        }
        if j :| j < n && IncomparableAt(rq, c, list, i, j, p) {
          assert j == n - 1 || j < n - 1;
        }
      }
    }
  }

  lemma {:induction false} PairsBeforeAre(rq: Requires, c: string, list: seq<Route>, n: nat)
    requires n <= |list|
    ensures forall p :: p in PairsBefore(rq, c, list, n) <==>
              exists i, j :: i < n && IncomparableAt(rq, c, list, i, j, p)
    decreases n
  {
    hide IncomparableAt;
    if n > 0 {
      PairsBeforeAre(rq, c, list, n - 1);
      PairsWithAre(rq, c, list, n - 1, |list|);
      OrderedPlaces(rq, c, list);
      forall p
        ensures p in PairsBefore(rq, c, list, n) <==> exists i, j :: i < n && IncomparableAt(rq, c, list, i, j, p)
      {
        if i, j :| i < n && IncomparableAt(rq, c, list, i, j, p) {
          assert i < n - 1 || (i == n - 1 && j < |list|);
        }
      }
    } else {
      OrderedPlaces(rq, c, list);
    }
  }

  lemma {:induction false} OrderedPlaces(rq: Requires, c: string, list: seq<Route>)
    ensures forall i, j, p :: IncomparableAt(rq, c, list, i, j, p) ==> 0 <= i < j < |list|
  {
  }

  method PairsIn(rq: Requires, c: string, list: seq<Route>) returns (out: seq<Pair>)
    ensures out == PairsOf(rq, c, list)
  {
    hide Incomparable;
    out := [];
    var i := 0;
    while i < |list|
      invariant 0 <= i <= |list|
      invariant out == PairsBefore(rq, c, list, i)
    {
      var j := i + 1;
      while j < |list|
        invariant i < j <= |list|
        invariant out == PairsBefore(rq, c, list, i) + PairsWith(rq, c, list, i, j)
      {
        var comparable := Comparable(rq, list[i], list[j]);
        if !comparable {
          out := out + [Pair(c, list[i], list[j])];
        }
        j := j + 1;
      }
      i := i + 1;
    }
  }

  /** The report: the incomparable pairs of routes to each money capability, in the order of the loops. */
  method IncomparableMoneyGuards(rq: Requires, routes: seq<Route>) returns (out: seq<Pair>)
    ensures out == ReportOf(rq, OrderOf(routes), routes)
    ensures forall p :: p in out <==>
      AboutMoney(p.capability) && IncomparablePair(rq, p.capability, Reaching(routes, p.capability), p)
  {
    hide IsMoney, AboutMoney, Incomparable, IncomparablePair, PairsOf, ReportOf, Reaching, OrderOf;
    forall c { MoneyIff(c); }
    var order, groups := GroupByCapability(routes);
    out := [];
    NoReport(rq, routes);
    var k := 0;
    while k < |order|
      invariant 0 <= k <= |order|
      invariant out == ReportOf(rq, order[..k], routes)
    {
      var pairs := PairsIn(rq, order[k], groups[order[k]]);
      ReportNext(rq, order[..k], order[k], routes);
      assert order[..k + 1] == order[..k] + [order[k]];
      out := out + pairs;
      k := k + 1;
    }
    assert order[..k] == order;
    ReportIs(rq, order, routes);
    ReachedCapabilities(rq, order, groups, routes);
  }

  lemma {:induction false} NoReport(rq: Requires, routes: seq<Route>)
    ensures ReportOf(rq, [], routes) == []
  {
  }

  lemma {:induction false} ReportNext(rq: Requires, order: seq<string>, c: string, routes: seq<Route>)
    ensures ReportOf(rq, order + [c], routes) == ReportOf(rq, order, routes) + PairsOf(rq, c, Reaching(routes, c))
  {
    hide PairsOf, Reaching;
    assert (order + [c])[..|order|] == order;
  }

  lemma {:induction false} ReportIs(rq: Requires, order: seq<string>, routes: seq<Route>)
    ensures forall p :: p in ReportOf(rq, order, routes) <==>
              p.capability in order && IncomparablePair(rq, p.capability, Reaching(routes, p.capability), p)
    decreases |order|
  {
    hide IncomparablePair, Reaching, PairsOf;
    if order != [] {
      var n, c := |order| - 1, order[|order| - 1];
      ReportIs(rq, order[..n], routes);
      PairsOfAre(rq, c, Reaching(routes, c));
      assert order == order[..n] + [c];
    }
  }

  lemma {:induction false} PairsOfAre(rq: Requires, c: string, list: seq<Route>)
    ensures forall p :: p in PairsOf(rq, c, list) <==> p.capability == c && IncomparablePair(rq, c, list, p)
  {
    PairsBeforeAre(rq, c, list, |list|);
    forall p
      ensures p in PairsOf(rq, c, list) <==> p.capability == c && IncomparablePair(rq, c, list, p)
    {
      PairsNameTheirCapability(rq, c, list);
      if i, j :| IncomparableAt(rq, c, list, i, j, p) {
        assert i < |list|;
      }
    }
  }

  /** A money capability that is not in the report's order is reached by no route. */
  lemma {:induction false} ReachedCapabilities(rq: Requires, order: seq<string>, groups: Groups, routes: seq<Route>)
    requires (forall c :: c in order <==> c in groups) && (forall c :: c in groups ==> IsMoney(c))
    requires forall c :: IsMoney(c) ==> GroupOf(groups, c) == Reaching(routes, c)
    ensures forall c, p :: IncomparablePair(rq, c, Reaching(routes, c), p) && IsMoney(c) ==> c in order
  {
    hide IncomparablePair, Reaching, IsMoney;
    NoPairsInNothing(rq);
  }

  lemma {:induction false} PairsNameTheirCapability(rq: Requires, c: string, list: seq<Route>)
    ensures forall p :: IncomparablePair(rq, c, list, p) ==> p.capability == c
  {
  }

  lemma {:induction false} NoPairsInNothing(rq: Requires)
    ensures forall c, p :: !IncomparablePair(rq, c, [], p)
  {
  }

  // ----- what an empty report means

  /** Any two of the guards are comparable. */
  ghost predicate IsChain(rq: Requires, list: seq<Route>) {
    forall i, j :: 0 <= i < j < |list| ==> !Incomparable(rq, list[i], list[j])
  }

  /** In a chain some guard demands no more than any other. */
  lemma {:induction false} ChainHasWeakest(rq: Requires, list: seq<Route>) returns (m: nat)
    requires list != [] && IsChain(rq, list)
    ensures m < |list|
    ensures forall j :: 0 <= j < |list| ==> Closure(rq, list[m].permissions) <= Closure(rq, list[j].permissions)
    decreases |list|
  {
    hide Closure;
    var n := |list| - 1;
    if n == 0 {
      m := 0;
    } else {
      m := ChainHasWeakest(rq, list[..n]);
      assert forall j :: 0 <= j < n ==> list[..n][j] == list[j];
      assert !Incomparable(rq, list[m], list[n]);
      if Closure(rq, list[n].permissions) <= Closure(rq, list[m].permissions) {
        m := n;
      }
    }
  }

  /**
   * A report without pairs means that, for every money capability that any route
   * reaches, one of those routes is a weakest guard: whoever passes any of the others
   * holds everything it demands.
   */
  lemma {:induction false} CleanReportHasWeakestGuard(rq: Requires, routes: seq<Route>, c: string) returns (m: nat)
    requires forall p :: !IncomparablePair(rq, c, Reaching(routes, c), p)
    requires Reaching(routes, c) != []
    ensures m < |Reaching(routes, c)|
    ensures forall j :: 0 <= j < |Reaching(routes, c)| ==>
      Closure(rq, Reaching(routes, c)[m].permissions) <= Closure(rq, Reaching(routes, c)[j].permissions)
  {
    hide Incomparable, Reaching;
    var list := Reaching(routes, c);
    forall i, j | 0 <= i < j < |list|
      ensures !Incomparable(rq, list[i], list[j])
    {
      assert IncomparableAt(rq, c, list, i, j, Pair(c, list[i], list[j])) == Incomparable(rq, list[i], list[j]);
      assert !IncomparablePair(rq, c, list, Pair(c, list[i], list[j]));
    }
    m := ChainHasWeakest(rq, list);
  }

  /** A route reaches a capability exactly as often as it is listed for it, and no route is lost in the grouping. */
  lemma {:induction false} ReachingIsMembership(routes: seq<Route>, c: string, route: Route)
    ensures route in Reaching(routes, c) <==> route in routes && c in route.capabilities
    decreases |routes|
  {
    if routes != [] {
      var n := |routes| - 1;
      ReachingIsMembership(routes[..n], c, route);
      TimesIsMembership(routes[n], routes[n].capabilities, c, route);
      assert routes == routes[..n] + [routes[n]];
    }
  }

  lemma {:induction false} TimesIsMembership(r: Route, capabilities: seq<string>, c: string, route: Route)
    ensures route in Times(r, capabilities, c) <==> route == r && c in capabilities
    decreases |capabilities|
  {
    if capabilities != [] {
      var n := |capabilities| - 1;
      TimesIsMembership(r, capabilities[..n], c, route);
      assert capabilities == capabilities[..n] + [capabilities[n]];
    }
  }
}
