/**
 * The event machine and the classes agree: a run in which the promises settle as given
 * ends every start and every close as the classes say.
 */
module LifecycleWorks {
  import opened Text
  import opened Lifecycle
  import opened LifecycleMachine
  import opened LifecycleSafety

  /** How the starting and the closing promises behave. */
  datatype Works = Works(starts: seq<Work>, closes: seq<Work>)

  ghost predicate Fits(c: Config, ws: Works) {
    |ws.starts| == |c.deps| && |ws.closes| == |c.steps|
  }

  /** A promise settles when and how it is said to, before its timer; a timer fires only on one that has not settled. */
  ghost predicate Obeys(c: Config, ws: Works, s: State, e: Event)
    requires Fits(c, ws) && Enabled(c, s, e)
  {
    match e
    case DependencySettles(k, ok) =>
      && ws.starts[k].settling == (if ok then Resolves(s.now) else Rejects(s.now))
      && (ResolvesWithin(ws.starts[k], c.deps[k].timeoutMs) || RejectsWithin(ws.starts[k], c.deps[k].timeoutMs))
    case DependencyTimer(k) =>
      !ResolvesWithin(ws.starts[k], c.deps[k].timeoutMs) && !RejectsWithin(ws.starts[k], c.deps[k].timeoutMs)
    case StepSettles(ok) =>
      var n := |s.drain.outcomes|;
      && s.drain.stepStart <= s.now
      && ws.closes[n].settling
         == (if ok then Resolves(s.now - s.drain.stepStart) else Rejects(s.now - s.drain.stepStart))
      && (ResolvesWithin(ws.closes[n], c.steps[n].timeoutMs) || RejectsWithin(ws.closes[n], c.steps[n].timeoutMs))
    case StepTimer =>
      var n := |s.drain.outcomes|;
      !ResolvesWithin(ws.closes[n], c.steps[n].timeoutMs) && !RejectsWithin(ws.closes[n], c.steps[n].timeoutMs)
    case _ => true
  }

  ghost predicate ObeysFrom(c: Config, ws: Works, s: State, events: seq<Event>)
    requires Fits(c, ws) && Inv(c, s) && RunFrom(c, s, events).Some?
    decreases |events|
  {
    events == [] ||
    (StepKeepsInv(c, s, events[0]);
     Obeys(c, ws, s, events[0]) && ObeysFrom(c, ws, Next(c, s, events[0]), events[1..]))
  }

  ghost predicate StartsAsSaid(c: Config, ws: Works, s: State)
    requires Fits(c, ws)
  {
    match s.boot
    case Booting(slots) =>
      |slots| == |c.deps| &&
      forall k :: 0 <= k < |slots| && slots[k].Some? ==> slots[k].value == ResultOf(c.deps[k], ws.starts[k])
    case Booted(_) =>
      |s.results| == |c.deps| && forall k :: 0 <= k < |c.deps| ==> s.results[k] == ResultOf(c.deps[k], ws.starts[k])
  }

  ghost predicate ClosesAsSaid(c: Config, ws: Works, s: State)
    requires Fits(c, ws)
  {
    !s.drain.NotDraining? ==>
      && |s.drain.outcomes| <= |c.steps|
      && forall k :: 0 <= k < |s.drain.outcomes| ==> s.drain.outcomes[k] == OutcomeOf(c.steps[k], ws.closes[k])
  }

  lemma {:induction false} StepObeys(c: Config, ws: Works, s: State, e: Event)
    requires Fits(c, ws) && Inv(c, s) && Enabled(c, s, e) && Obeys(c, ws, s, e)
    requires StartsAsSaid(c, ws, s) && ClosesAsSaid(c, ws, s)
    ensures StartsAsSaid(c, ws, Next(c, s, e)) && ClosesAsSaid(c, ws, Next(c, s, e))
  {
    hide TotalDuration, LongestTimeout, RequiredAreReady, AllClosed, PhaseInv;
    if e.DependencySettles? || e.DependencyTimer? {
      assert SlotInv(c.deps[e.k], s.boot.slots[e.k], s.now);
    }
  }

  lemma {:induction false} RunObeys(c: Config, ws: Works, s: State, events: seq<Event>)
    requires Fits(c, ws) && Inv(c, s) && RunFrom(c, s, events).Some? && ObeysFrom(c, ws, s, events)
    requires StartsAsSaid(c, ws, s) && ClosesAsSaid(c, ws, s)
    ensures var t := RunFrom(c, s, events).value;
            StartsAsSaid(c, ws, t) && ClosesAsSaid(c, ws, t)
    decreases |events|
  {
    hide Inv, StartsAsSaid, ClosesAsSaid, Obeys, Next;
    SlotsMatch(c, s);
    if events != [] {
      StepKeepsInv(c, s, events[0]);
      StepObeys(c, ws, s, events[0]);
      RunObeys(c, ws, Next(c, s, events[0]), events[1..]);
    }
  }

  /**
   * Over every schedule in which the promises settle as given: a process that is up reports
   * every dependency by its promise, and is ready, unless it drains, exactly when every
   * required one resolves within its limit; a drain that is over reports every step by its
   * promise, and exits with 0 exactly when every one resolves within its limit.
   */
  lemma {:induction false} RunsFollowTheirPromises(c: Config, ws: Works, events: seq<Event>, s: State)
    requires Fits(c, ws) && Reaches(c, events, s)
    requires Inv(c, Initial(c)) && ObeysFrom(c, ws, Initial(c), events)
    ensures s.boot.Booted? ==>
              && |s.results| == |c.deps|
              && (forall k :: 0 <= k < |c.deps| ==> s.results[k] == ResultOf(c.deps[k], ws.starts[k]))
              && (s.drain.NotDraining? ==>
                    (s.phase == Ready <==>
                       forall k :: 0 <= k < |c.deps| && c.deps[k].kind == Required
                         ==> ResolvesWithin(ws.starts[k], c.deps[k].timeoutMs)))
    ensures s.drain.Exited? ==>
              && |s.drain.outcomes| == |c.steps|
              && (forall k :: 0 <= k < |c.steps| ==> s.drain.outcomes[k] == OutcomeOf(c.steps[k], ws.closes[k]))
              && (s.drain.code == 0 <==>
                    forall k :: 0 <= k < |c.steps| ==> ResolvesWithin(ws.closes[k], c.steps[k].timeoutMs))
  {
    hide RunFrom, ObeysFrom, ResolvesWithin, LongestTimeout, TotalDuration;
    assert StartsAsSaid(c, ws, Initial(c)) && ClosesAsSaid(c, ws, Initial(c));
    RunObeys(c, ws, Initial(c), events);
    SafetyOverAllRuns(c, events, s);
    ReadyIffPromises(c, ws, s);
    ClosedIffPromises(c, ws, s);
  }

  lemma {:induction false} ReadyIffPromises(c: Config, ws: Works, s: State)
    requires Fits(c, ws) && StartsAsSaid(c, ws, s)
    ensures s.boot.Booted? ==>
              (RequiredAreReady(s.results) <==>
                 forall k :: 0 <= k < |c.deps| && c.deps[k].kind == Required
                   ==> ResolvesWithin(ws.starts[k], c.deps[k].timeoutMs))
  {
    hide ResolvesWithin, RejectsWithin;
    if s.boot.Booted? {
      forall k | 0 <= k < |c.deps|
        ensures s.results[k].kind == c.deps[k].kind
        ensures s.results[k].state == DependencyReady <==> ResolvesWithin(ws.starts[k], c.deps[k].timeoutMs)
      {
        assert s.results[k] == ResultOf(c.deps[k], ws.starts[k]);
      }
    }
  }

  lemma {:induction false} ClosedIffPromises(c: Config, ws: Works, s: State)
    requires Fits(c, ws) && ClosesAsSaid(c, ws, s)
    ensures s.drain.Exited? && |s.drain.outcomes| == |c.steps| ==>
              (AllClosed(s.drain.outcomes) <==>
                 forall k :: 0 <= k < |c.steps| ==> ResolvesWithin(ws.closes[k], c.steps[k].timeoutMs))
  {
    hide ResolvesWithin, RejectsWithin;
    if s.drain.Exited? && |s.drain.outcomes| == |c.steps| {
      forall k | 0 <= k < |c.steps|
        ensures s.drain.outcomes[k].state == Closed <==> ResolvesWithin(ws.closes[k], c.steps[k].timeoutMs)
      {
        assert s.drain.outcomes[k] == OutcomeOf(c.steps[k], ws.closes[k]);
      }
    }
  }
}
