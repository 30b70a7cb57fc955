/** First-match dispatch, and the check that looks for shadowed routes. */
module Routes {
  import opened Text
  import opened Paths

  // ----- dispatch

  datatype Verb = Get | Post | Put | Patch | Delete | All

  datatype Route = Route(verb: Verb, fullPath: string)

  predicate Answers(r: Route, verb: Verb, url: string) {
    (r.verb == All || r.verb == verb) && Matches(r.fullPath, url)
  }

  /** The first route that answers wins. */
  function DispatchFrom(routes: seq<Route>, verb: Verb, url: string, i: nat): (r: Option<nat>)
    requires i <= |routes|
    ensures r.Some? ==> i <= r.value < |routes| && Answers(routes[r.value], verb, url)
    ensures forall j :: i <= j < (if r.Some? then r.value else |routes|) ==> !Answers(routes[j], verb, url)
    decreases |routes| - i
  {
    if i == |routes| then None
    else if Answers(routes[i], verb, url) then Some(i)
    else DispatchFrom(routes, verb, url, i + 1)
  }

  function Dispatch(routes: seq<Route>, verb: Verb, url: string): (r: Option<nat>) {
    DispatchFrom(routes, verb, url, 0)
  }

  /** Some request with the route's own verb is dispatched to route `i`. */
  ghost predicate Served(routes: seq<Route>, i: nat)
    requires i < |routes|
  {
    exists url :: Dispatch(routes, routes[i].verb, url) == Some(i)
  }

  // ----- the shadow check

  datatype Kind = SHADOWED | DUPLICATE

  datatype Shadow = Shadow(victim: nat, eatenBy: nat, kind: Kind)

  predicate VerbCovers(earlier: Verb, victim: Verb) {
    earlier == victim || earlier == All
  }

  /** What the check asks of an earlier route. */
  predicate Eats(earlier: Route, victim: Route) {
    && VerbCovers(earlier.verb, victim.verb)
    && (earlier.fullPath == victim.fullPath || Matches(earlier.fullPath, SampleFor(victim.fullPath)))
  }

  /** The first route at or after `j`, but before `i`, that eats route `i`. */
  function FirstEater(routes: seq<Route>, i: nat, j: nat): (r: Option<nat>)
    requires j <= i < |routes|
    ensures r.Some? ==> j <= r.value < i && Eats(routes[r.value], routes[i])
    ensures forall x :: j <= x < (if r.Some? then r.value else i) ==> !Eats(routes[x], routes[i])
    decreases i - j
  {
    if j == i then None else if Eats(routes[j], routes[i]) then Some(j) else FirstEater(routes, i, j + 1)
  }

  function ShadowOf(routes: seq<Route>, i: nat): (s: seq<Shadow>)
    requires i < |routes|
  {
    var r := FirstEater(routes, i, 0);
    if r.None? then []
    else [Shadow(i, r.value, if routes[r.value].fullPath == routes[i].fullPath then DUPLICATE else SHADOWED)]
  }

  function Shadows(routes: seq<Route>, n: nat): (s: seq<Shadow>)
    requires n <= |routes|
  {
    if n == 0 then [] else Shadows(routes, n - 1) + ShadowOf(routes, n - 1)
  }

  method FindShadowedRoutes(routes: seq<Route>) returns (found: seq<Shadow>)
    ensures found == Shadows(routes, |routes|)
    ensures forall s :: s in found <==> IsShadow(routes, s)
    ensures VictimsRise(found, |routes|)
  {
    hide Matches, SampleFor, Segments, IsShadow, VictimsRise;
    ReportOfAll(routes);
    found := [];
    var i := 0;
    while i < |routes|
      invariant 0 <= i <= |routes| && found == Shadows(routes, i)
    {
      var victim := routes[i];
      var sample := SampleFor(victim.fullPath);
      var j := 0;
      while j < i
        invariant 0 <= j <= i && FirstEater(routes, i, j) == FirstEater(routes, i, 0)
        invariant found == Shadows(routes, i)
      {
        var earlier := routes[j];
        if earlier.verb == victim.verb || earlier.verb == All {
          if earlier.fullPath == victim.fullPath {
            found := found + [Shadow(i, j, DUPLICATE)];
            break;
          }
          if Matches(earlier.fullPath, sample) {
            found := found + [Shadow(i, j, SHADOWED)];
            break;
          }
        }
        j := j + 1;
      }
      i := i + 1;
    }
  }

  // ----- what the report says

  /** The earlier route has the victim's verb or takes every verb, and its path or one that matches the sample. */
  ghost predicate TakesFrom(earlier: Route, victim: Route) {
    && (earlier.verb == victim.verb || earlier.verb.All?)
    && (earlier.fullPath == victim.fullPath || Matches(earlier.fullPath, SampleFor(victim.fullPath)))
  }

  /** The first route before the victim that takes from it; a duplicate if the paths are spelled alike. */
  ghost predicate IsShadow(routes: seq<Route>, s: Shadow) {
    && s.eatenBy < s.victim < |routes| && TakesFrom(routes[s.eatenBy], routes[s.victim])
    && (forall j :: 0 <= j < s.eatenBy ==> !TakesFrom(routes[j], routes[s.victim]))
    && (s.kind == DUPLICATE <==> routes[s.eatenBy].fullPath == routes[s.victim].fullPath)
  }

  lemma {:induction false} ShadowOfIs(routes: seq<Route>, i: nat, s: Shadow)
    requires i < |routes|
    ensures s in ShadowOf(routes, i) <==> s.victim == i && IsShadow(routes, s)
  {
    hide Matches, SampleFor;
    var r := FirstEater(routes, i, 0);
    if s.victim == i && IsShadow(routes, s) {
      assert Eats(routes[s.eatenBy], routes[i]);
      assert forall j :: 0 <= j < s.eatenBy ==> !Eats(routes[j], routes[i]);
    }
  }

  ghost predicate VictimsRise(ss: seq<Shadow>, n: nat) {
    && (forall j :: 0 <= j < |ss| ==> ss[j].victim < n)
    && forall j, k :: 0 <= j < k < |ss| ==> ss[j].victim < ss[k].victim
  }

  lemma {:induction false} OneVictim(routes: seq<Route>, i: nat)
    requires i < |routes|
    ensures var ss := ShadowOf(routes, i);
            |ss| <= 1 && forall j :: 0 <= j < |ss| ==> ss[j].victim == i
  {
    hide FirstEater;
  }

  /** The report holds, in the order of the victims and once each, exactly the shadows of the routes. */
  lemma {:induction false} ReportIs(routes: seq<Route>, n: nat)
    requires n <= |routes|
    ensures forall s :: s in Shadows(routes, n) <==> s.victim < n && IsShadow(routes, s)
    ensures VictimsRise(Shadows(routes, n), n)
    decreases n
  {
    hide IsShadow, ShadowOf;
    if n > 0 {
      ReportIs(routes, n - 1);
      OneVictim(routes, n - 1);
      forall s
        ensures s in ShadowOf(routes, n - 1) <==> s.victim == n - 1 && IsShadow(routes, s)
      {
        ShadowOfIs(routes, n - 1, s);
      }
    }
  }

  lemma {:induction false} ReportOfAll(routes: seq<Route>)
    ensures forall s :: s in Shadows(routes, |routes|) <==> IsShadow(routes, s)
    ensures VictimsRise(Shadows(routes, |routes|), |routes|)
  {
    hide TakesFrom, Shadows;
    ReportIs(routes, |routes|);
  }

  // ----- what the report means

  lemma {:induction false} ReportedIff(routes: seq<Route>, n: nat, i: nat)
    requires n <= |routes| && i < |routes|
    ensures (exists s :: s in Shadows(routes, n) && s.victim == i) <==> i < n && FirstEater(routes, i, 0).Some?
    decreases n
  {
    hide Eats;
    if n > 0 {
      ReportedIff(routes, n - 1, i);
      if i == n - 1 && FirstEater(routes, i, 0).Some? {
        assert ShadowOf(routes, i)[0] in Shadows(routes, n);
      }
    }
  }

  /** A clean report: each route with a verb of its own is the one that answers its own sample request. */
  lemma {:induction false} CleanReportServesSamples(routes: seq<Route>, i: nat)
    requires i < |routes| && routes[i].verb != All && Segments(routes[i].fullPath) != []
    requires Shadows(routes, |routes|) == []
    ensures Dispatch(routes, routes[i].verb, SampleFor(routes[i].fullPath)) == Some(i)
  {
    hide Matches, SampleFor, Segments;
    ReportedIff(routes, |routes|, i);
    assert FirstEater(routes, i, 0).None?;
    MatchesOwnSample(routes[i].fullPath);
    var verb, url := routes[i].verb, SampleFor(routes[i].fullPath);
    var d := Dispatch(routes, verb, url);
    forall j | 0 <= j < i
      ensures !Answers(routes[j], verb, url)
    {
      assert !Eats(routes[j], routes[i]);
    }
  }

  /** The literal segments of the routes are shorter than `n`. */
  ghost predicate ShorterThan(routes: seq<Route>, n: nat) {
    forall i, k :: 0 <= i < |routes| && 0 <= k < |Segments(routes[i].fullPath)|
        ==> |Segments(routes[i].fullPath)[k]| < n
  }

  lemma {:induction false} LongestSegment(segs: seq<string>) returns (n: nat)
    ensures forall k :: 0 <= k < |segs| ==> |segs[k]| < n
    decreases |segs|
  {
    if segs == [] {
      n := 0;
    } else {
      var m := LongestSegment(segs[..|segs| - 1]);
      n := if |segs[|segs| - 1]| < m then m else |segs[|segs| - 1]| + 1;
    }
  }

  lemma {:induction false} SomeLength(routes: seq<Route>) returns (n: nat)
    ensures n > 0 && ShorterThan(routes, n)
    decreases |routes|
  {
    hide Segments;
    if routes == [] {
      n := 1;
    } else {
      var last := |routes| - 1;
      var m := SomeLength(routes[..last]);
      var k := LongestSegment(Segments(routes[last].fullPath));
      n := if k < m then m else k + 1;
    }
  }

  function Fresh(n: nat): (s: string)
    ensures |s| == n && forall x :: 0 <= x < n ==> s[x] == 'x'
  {
    seq(n, _ => 'x')
  }

  /** A request for the route with a parameter value that no route spells out. */
  function FreshParts(segs: seq<string>, n: nat): (parts: seq<string>)
    ensures |parts| == |segs|
  {
    seq(|segs|, k requires 0 <= k < |segs| => if IsParam(segs[k]) then Fresh(n) else segs[k])
  }

  lemma {:induction false} FreshPartsAreGood(segs: seq<string>, n: nat)
    requires GoodParts(segs) && n > 0
    ensures GoodParts(FreshParts(segs, n)) && PartsMatch(segs, FreshParts(segs, n))
  {
  }

  /** A route that matches the fresh request has a parameter wherever the victim has one. */
  lemma {:induction false} FreshRequestDecides(earlier: string, victim: string, n: nat)
    requires Segments(victim) != [] && n > 0
    requires forall k :: 0 <= k < |Segments(earlier)| ==> |Segments(earlier)[k]| < n
    requires Matches(earlier, Render(FreshParts(Segments(victim), n)))
    ensures Matches(earlier, SampleFor(victim)) && !SampleCollides(earlier, victim)
  {
    hide Segments, SampleFor;
    var v, e := Segments(victim), Segments(earlier);
    FreshPartsAreGood(v, n);
    MatchIffPartsMatch(e, FreshParts(v, n));
    forall k | 0 <= k < |e|
      ensures SegMatches(e[k], SampleParts(v)[k]) && (IsParam(v[k]) ==> IsParam(e[k]))
    {
      assert SegMatches(e[k], FreshParts(v, n)[k]);
    }
    SampleTest(earlier, victim);
  }

  /**
   * Exactly when a route is dead. A route with a verb of its own gets no request at
   * all exactly when some earlier route of a covering verb passes the sample test and
   * no literal `7` of it stands where the victim has a parameter.
   */
  lemma {:induction false} UnservedIff(routes: seq<Route>, i: nat)
    requires i < |routes| && routes[i].verb != All && Segments(routes[i].fullPath) != []
    ensures !Served(routes, i) <==>
            exists j :: 0 <= j < i && VerbCovers(routes[j].verb, routes[i].verb)
              && Matches(routes[j].fullPath, SampleFor(routes[i].fullPath))
              && !SampleCollides(routes[j].fullPath, routes[i].fullPath)
  {
    hide Matches, SampleFor, Segments, SampleCollides;
    if j :| 0 <= j < i && VerbCovers(routes[j].verb, routes[i].verb)
              && Matches(routes[j].fullPath, SampleFor(routes[i].fullPath))
              && !SampleCollides(routes[j].fullPath, routes[i].fullPath) {
      SampleDecidesInclusion(routes[j].fullPath, routes[i].fullPath);
      CoveredIsUnserved(routes, i, j);
    } else {
      var url := FreshRequest(routes, i);
      assert Dispatch(routes, routes[i].verb, url) == Some(i);
    }
  }

  lemma {:induction false} CoveredIsUnserved(routes: seq<Route>, i: nat, j: nat)
    requires j < i < |routes| && VerbCovers(routes[j].verb, routes[i].verb)
    requires Includes(routes[j].fullPath, routes[i].fullPath)
    ensures !Served(routes, i)
  {
    hide Matches;
    forall url
      ensures Dispatch(routes, routes[i].verb, url) != Some(i)
    {
      assert Answers(routes[i], routes[i].verb, url) ==> Answers(routes[j], routes[i].verb, url);
    }
  }

  lemma {:induction false} FreshRequest(routes: seq<Route>, i: nat) returns (url: string)
    requires i < |routes| && routes[i].verb != All && Segments(routes[i].fullPath) != []
    requires forall j :: 0 <= j < i && VerbCovers(routes[j].verb, routes[i].verb)
              && Matches(routes[j].fullPath, SampleFor(routes[i].fullPath))
              ==> SampleCollides(routes[j].fullPath, routes[i].fullPath)
    ensures Dispatch(routes, routes[i].verb, url) == Some(i)
  {
    hide Matches, SampleFor, Segments, SampleCollides;
    var n := SomeLength(routes);
    var victim := routes[i].fullPath;
    url := Render(FreshParts(Segments(victim), n));
    MatchesFresh(victim, n);
    forall j | 0 <= j < i
      ensures !Answers(routes[j], routes[i].verb, url)
    {
      if Answers(routes[j], routes[i].verb, url) {
        FreshRequestDecides(routes[j].fullPath, victim, n);
      }
    }
    var d := Dispatch(routes, routes[i].verb, url);
  }

  lemma {:induction false} MatchesFresh(path: string, n: nat)
    requires n > 0
    ensures Matches(path, Render(FreshParts(Segments(path), n)))
  {
    hide Segments;
    FreshPartsAreGood(Segments(path), n);
    MatchIffPartsMatch(Segments(path), FreshParts(Segments(path), n));
  }

  /** No route spells out the sample value. */
  ghost predicate NoSevens(routes: seq<Route>) {
    forall i, k :: 0 <= i < |routes| && 0 <= k < |Segments(routes[i].fullPath)|
        ==> Segments(routes[i].fullPath)[k] != "7"
  }

  /** Without a literal `7` anywhere the report is exact: a route is reported precisely when no request can reach it. */
  lemma {:induction false} ReportIsExact(routes: seq<Route>, i: nat)
    requires NoSevens(routes) && i < |routes| && routes[i].verb != All && Segments(routes[i].fullPath) != []
    ensures (exists s :: s in Shadows(routes, |routes|) && s.victim == i) <==> !Served(routes, i)
  {
    hide Matches, SampleFor, Segments, Served;
    ReportedIff(routes, |routes|, i);
    UnservedIff(routes, i);
    MatchesOwnSample(routes[i].fullPath);
    forall j | 0 <= j < i
      ensures Eats(routes[j], routes[i]) <==>
        VerbCovers(routes[j].verb, routes[i].verb) && Matches(routes[j].fullPath, SampleFor(routes[i].fullPath))
      ensures !SampleCollides(routes[j].fullPath, routes[i].fullPath)
    {
    }
  }

  const SEVENS: seq<Route> := [Route(Get, "/a/7"), Route(Get, "/a/:id")]

  /** With one, it is not: the second route is reported, and still answers every other request of its shape. */
  lemma {:induction false} SevenIsAFalseAlarm()
    ensures Shadows(SEVENS, 2) == [Shadow(1, 0, SHADOWED)]
    ensures Served(SEVENS, 1)
  {
    hide Segments, Matches, SampleFor, SampleCollides, Served, Shadows;
    assert "/a/7" == ['/'] + "a" + ['/'] + "7" && "/a/:id" == ['/'] + "a" + ['/'] + ":id";
    TwoSegments("a", "7");
    TwoSegments("a", ":id");
    SevenPassesTheTest("/a/7", "/a/:id");
    SevenReport();
    UnservedIff(SEVENS, 1);
  }

  lemma {:induction false} SevenPassesTheTest(e: string, v: string)
    requires Segments(e) == ["a", "7"] && Segments(v) == ["a", ":id"]
    ensures Matches(e, SampleFor(v)) && SampleCollides(e, v)
  {
    hide Segments, Matches, SampleFor;
    SampleTest(e, v);
    assert SampleParts(["a", ":id"]) == ["a", "7"];
    assert IsParam(Segments(v)[1]) && Segments(e)[1] == "7";
  }

  lemma {:induction false} SevenReport()
    requires Matches("/a/7", SampleFor("/a/:id"))
    ensures Shadows(SEVENS, 2) == [Shadow(1, 0, SHADOWED)]
  {
    hide Matches, SampleFor;
    assert Eats(SEVENS[0], SEVENS[1]);
    assert FirstEater(SEVENS, 0, 0) == None && FirstEater(SEVENS, 1, 0) == Some(0);
    assert SEVENS[0].fullPath[2] != SEVENS[1].fullPath[2] || SEVENS[0].fullPath[3] != SEVENS[1].fullPath[3];
    assert Shadows(SEVENS, 1) == [] + ShadowOf(SEVENS, 0);
  }
}
