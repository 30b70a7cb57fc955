/** What holds over every schedule of the server process. */
module LifecycleSafety {
  import opened Text
  import opened Lifecycle
  import opened LifecycleMachine

  /** The exit code of a process that ended by itself: an empty loop ends with 0. */
  function ExitCode(s: State): (code: Option<int>) {
    if s.emptied then Some(0) else if s.drain.Exited? then Some(s.drain.code) else None
  }

  /**
   * Over all runs: one result per dependency within the longest limit, ready exactly when
   * every required dependency is, at most one drain, every step attempted in order within
   * the summed limits, and code 0 exactly when all closed or the loop ran empty.
   */
  lemma {:induction false} SafetyOverAllRuns(c: Config, events: seq<Event>, s: State)
    requires Reaches(c, events, s)
    ensures match s.boot
            case Booting(_) => s.now <= LongestTimeout(c.deps)
            case Booted(at) => at <= LongestTimeout(c.deps) && OneResultEach(c.deps, s.results)
    ensures s.drain.NotDraining? ==> (s.phase == Ready <==> s.boot.Booted? && RequiredAreReady(s.results))
    ensures s.drains == if s.drain.NotDraining? then 0 else 1
    ensures match s.drain
            case NotDraining => true
            case Draining(startedAt, _, outcomes) =>
              Attempted(c.steps, outcomes) && s.now <= startedAt + TotalTimeout(c.steps)
            case Exited(startedAt, at, outcomes, code) =>
              && |outcomes| == |c.steps| && Attempted(c.steps, outcomes)
              && at <= startedAt + TotalTimeout(c.steps) && (code == 0 <==> AllClosed(outcomes))
    ensures ExitCode(s) == Some(0) <==> s.emptied || (s.drain.Exited? && AllClosed(s.drain.outcomes))
  {
    hide RunFrom, LongestTimeout, RequiredAreReady, AllClosed;
    InitialInv(c);
    assert Inv(c, s) by { RunKeepsInv(c, Initial(c), events); }
    if !s.drain.NotDraining? {
      DrainBudget(c, s);
    }
  }

  lemma {:induction false} RunKeepsInv(c: Config, s: State, events: seq<Event>)
    requires Inv(c, s)
    ensures RunFrom(c, s, events).Some? ==> Inv(c, RunFrom(c, s, events).value)
  {
  }

  lemma {:induction false} DrainBudget(c: Config, s: State)
    requires DrainInv(c, s) && !s.drain.NotDraining?
    ensures (if s.drain.Draining? then s.now else s.drain.at) <= s.drain.startedAt + TotalTimeout(c.steps)
  {
    hide AllClosed;
    WithinBudget(c.steps, s.drain.outcomes);
    var n := |s.drain.outcomes|;
    if n < |c.steps| {
      assert TotalTimeout(c.steps[n..]) == c.steps[n].timeoutMs + TotalTimeout(c.steps[n..][1..]);
    }
  }

  /** Once initialisation is over, nothing leaves the shutting-down phase. */
  lemma {:induction false} StaysShutDown(c: Config, s: State, events: seq<Event>)
    requires Inv(c, s) && s.phase == ShuttingDown && s.boot.Booted? && RunFrom(c, s, events).Some?
    ensures RunFrom(c, s, events).value.phase == ShuttingDown
    decreases |events|
  {
    hide Inv, Next, Enabled;
    SlotsMatch(c, s);
    if events != [] {
      StepKeepsInv(c, s, events[0]);
      StaysShutDown(c, Next(c, s, events[0]), events[1..]);
    }
  }

  /** In the server's order, every reachable shutting-down state stays shut down. */
  lemma {:induction false} ServerStaysShutDown(c: Config, before: seq<Event>, s: State, after: seq<Event>)
    requires !c.handlersFirst && Reaches(c, before, s) && s.phase == ShuttingDown
    requires Inv(c, s) ==> RunFrom(c, s, after).Some?
    ensures Inv(c, s) && RunFrom(c, s, after).value.phase == ShuttingDown
  {
    hide RunFrom, BootInv, DrainInv, RequiredAreReady;
    InitialInv(c);
    RunKeepsInv(c, Initial(c), before);
    StaysShutDown(c, s, after);
  }

  // ----- handlers before initialisation

  function Unfilled(slots: seq<Option<DependencyResult>>): (n: nat) {
    if slots == [] then 0 else (if slots[0].None? then 1 else 0) + Unfilled(slots[1..])
  }

  lemma {:induction false} FillingCounts(slots: seq<Option<DependencyResult>>, k: nat, r: DependencyResult)
    requires k < |slots| && slots[k].None?
    ensures Unfilled(slots[k := Some(r)]) == Unfilled(slots) - 1
    decreases k
  {
    if k > 0 {
      assert slots[k := Some(r)][1..] == slots[1..][k - 1 := Some(r)];
      FillingCounts(slots[1..], k - 1, r);
    } else {
      assert slots[0 := Some(r)][1..] == slots[1..];
    }
  }

  /** Nothing has gone wrong so far. */
  ghost predicate AllReadySoFar(slots: seq<Option<DependencyResult>>) {
    forall k :: 0 <= k < |slots| && slots[k].Some? ==> slots[k].value.state == DependencyReady
  }

  /**
   * An initialisation that is still running can always end, and sets the phase when it
   * does: to ready, if nothing has gone wrong so far.
   */
  lemma {:induction false} BootCanEnd(c: Config, s: State) returns (events: seq<Event>)
    requires Inv(c, s) && Alive(s) && s.boot.Booting? && (s.live || s.now == 0)
    ensures RunFrom(c, s, events).Some?
    ensures var t := RunFrom(c, s, events).value;
            && t.phase != ShuttingDown && t.drain == s.drain && (AllReadySoFar(s.boot.slots) ==> t.phase == Ready)
    decreases Unfilled(s.boot.slots)
  {
    hide Inv, Due, AllReadySoFar;
    SlotsMatch(c, s);
    if AllFilled(s.boot.slots) {
      events := [BootEnds];
      ReadyValues(s.boot.slots);
      assert RunFrom(c, Next(c, s, BootEnds), []) == Some(Next(c, s, BootEnds)) by { StepKeepsInv(c, s, BootEnds); }
    } else {
      var k :| 0 <= k < |s.boot.slots| && s.boot.slots[k].None?;
      var e := DependencySettles(k, true);
      var t := Next(c, s, e);
      StepKeepsInv(c, s, e);
      FillingCounts(s.boot.slots, k, t.boot.slots[k].value);
      ReadyStays(s.boot.slots, k, t.boot.slots[k].value);
      var rest := BootCanEnd(c, t);
      events := [e] + rest;
      assert events[1..] == rest;
    }
  }

  lemma {:induction false} ReadyValues(slots: seq<Option<DependencyResult>>)
    requires AllFilled(slots)
    ensures AllReadySoFar(slots) ==> RequiredAreReady(Values(slots))
  {
  }

  lemma {:induction false} ReadyStays(slots: seq<Option<DependencyResult>>, k: nat, r: DependencyResult)
    requires k < |slots| && slots[k].None? && r.state == DependencyReady
    ensures AllReadySoFar(slots) ==> AllReadySoFar(slots[k := Some(r)])
  {
  }

  lemma {:induction false} SlotsMatch(c: Config, s: State)
    requires Inv(c, s)
    ensures s.boot.Booting? ==> |s.boot.slots| == |c.deps|
    ensures s.drain.Draining? ==> s.drain.stepStart <= s.now
  {
    hide PhaseInv;
  }

  ghost predicate CanLeave(c: Config, s: State)
    requires Inv(c, s)
  {
    exists events :: RunFrom(c, s, events).Some? && RunFrom(c, s, events).value.phase != ShuttingDown
  }

  /** While the loop is kept alive, a drain can be overtaken exactly as long as initialisation is still running. */
  lemma {:induction false} OvertakenIffStillBooting(c: Config, s: State)
    requires Inv(c, s) && Alive(s) && s.live && s.phase == ShuttingDown
    ensures CanLeave(c, s) <==> s.boot.Booting?
  {
    hide Inv, RunFrom;
    if s.boot.Booting? {
      var events := BootCanEnd(c, s);
    } else {
      forall events | RunFrom(c, s, events).Some?
        ensures RunFrom(c, s, events).value.phase == ShuttingDown
      {
        StaysShutDown(c, s, events);
      }
    }
  }

  /** With the handlers installed first, a signal during startup can be followed by a phase that takes traffic again. */
  lemma {:induction false} HandlersFirstCanServeWhileDraining(c: Config) returns (events: seq<Event>, s: State)
    requires c.handlersFirst
    ensures Reaches(c, events, s) && s.drain.Draining? && s.phase == Ready
  {
    hide Inv;
    InitialInv(c);
    var s0 := Initial(c);
    var s1 := Next(c, s0, Signal);
    StepKeepsInv(c, s0, Signal);
    var rest := BootCanEnd(c, s1);
    events := [Signal] + rest;
    assert events[1..] == rest;
    s := RunFrom(c, s1, rest).value;
  }

  // ----- progress

  /**
   * A process that has not ended is never stuck; while the loop is kept alive, not even then if
   * nothing takes that away.
   */
  lemma {:induction false} NeverStuck(c: Config, s: State) returns (e: Event)
    requires Inv(c, s) && Alive(s)
    ensures Enabled(c, s, e) && !e.Signal? && (s.live ==> !e.HandlesGone? && !e.LoopEmpties?)
  {
    hide Inv;
    SlotsMatch(c, s);
    if s.boot.Booting? && AllFilled(s.boot.slots) {
      e := BootEnds;
    } else if s.drain.Draining? && |s.drain.outcomes| >= |c.steps| {
      e := DrainEnds;
    } else if !s.live {
      e := LoopEmpties;
    } else if !Due(c, s) {
      e := Tick;
    } else if k: nat :| k < |c.deps| && Pending(s, k) && c.deps[k].timeoutMs <= s.now {
      e := DependencyTimer(k);
    } else {
      e := StepTimer;
    }
  }

  /** The milliseconds and the steps that a drain has left. */
  ghost function DrainLeft(c: Config, s: State): (n: int) {
    if s.drain.Draining? && |s.drain.outcomes| <= |c.steps| then
      s.drain.stepStart + TotalTimeout(c.steps[|s.drain.outcomes|..]) - s.now + (|c.steps| - |s.drain.outcomes|) + 1
    else 0
  }

  /** What a run without signals can still do: at most lose its handles, and empty the loop, besides. */
  ghost function EventsLeft(c: Config, s: State): (n: int) {
    if !Alive(s) then 0 else DrainLeft(c, s) + if s.live then 1 else 0
  }

  lemma {:induction false} DrainAdvances(c: Config, s: State, e: Event)
    requires Inv(c, s) && s.boot.Booted? && s.drain.Draining? && Enabled(c, s, e) && !e.Signal?
    ensures EventsLeft(c, s) > 0 && EventsLeft(c, Next(c, s, e)) < EventsLeft(c, s)
    ensures Next(c, s, e).boot.Booted? && !Next(c, s, e).drain.NotDraining?
  {
    hide BootInv, PhaseInv, AllClosed, RequiredAreReady;
    DrainHasTime(c, s);
    var n := |s.drain.outcomes|;
    if n < |c.steps| {
      assert c.steps[n..][1..] == c.steps[n + 1..];
      assert TotalTimeout(c.steps[n..]) == c.steps[n].timeoutMs + TotalTimeout(c.steps[n + 1..]);
    }
  }

  /**
   * A drain that has begun is over within as many events as it has milliseconds and steps
   * left, and one: together with NeverStuck, it ends whatever hangs.
   */
  lemma {:induction false} DrainEndsSoon(c: Config, s: State, events: seq<Event>)
    requires Inv(c, s) && s.boot.Booted? && s.drain.Draining? && RunFrom(c, s, events).Some? && Signal !in events
    ensures |events| <= DrainLeft(c, s) + 1
    decreases |events|
  {
    hide Inv, DrainLeft;
    DrainHasTime(c, s);
    EventsBound(c, s, events);
  }

  lemma {:induction false} EventsBound(c: Config, s: State, events: seq<Event>)
    requires Inv(c, s) && s.boot.Booted? && !s.drain.NotDraining? && RunFrom(c, s, events).Some? && Signal !in events
    ensures |events| <= if Alive(s) then EventsLeft(c, s) else 0
    decreases |events|
  {
    hide Inv, Next, EventsLeft;
    SlotsMatch(c, s);
    if events != [] {
      var t := Next(c, s, events[0]);
      DrainAdvances(c, s, events[0]);
      StepKeepsInv(c, s, events[0]);
      EventsBound(c, t, events[1..]);
    } else if Alive(s) {
      SomeEventsLeft(c, s);
    }
  }

  lemma {:induction false} SomeEventsLeft(c: Config, s: State)
    requires Inv(c, s) && !s.drain.NotDraining? && Alive(s)
    ensures EventsLeft(c, s) >= 0
  {
    hide Inv;
    DrainHasTime(c, s);
  }

  lemma {:induction false} DrainHasTime(c: Config, s: State)
    requires Inv(c, s) && s.drain.Draining?
    ensures DrainLeft(c, s) > 0
  {
    hide BootInv, PhaseInv;
    var n := |s.drain.outcomes|;
    if n < |c.steps| {
      assert TotalTimeout(c.steps[n..]) == c.steps[n].timeoutMs + TotalTimeout(c.steps[n..][1..]);
    }
  }

  // ----- the loop that nothing keeps alive

  /** While nothing takes the handles away, the loop stays alive and does not run empty. */
  lemma {:induction false} KeptAlive(c: Config, s: State, events: seq<Event>)
    requires Inv(c, s) && s.live && !s.emptied && RunFrom(c, s, events).Some? && HandlesGone !in events
    ensures RunFrom(c, s, events).value.live && !RunFrom(c, s, events).value.emptied
    decreases |events|
  {
    hide Inv;
    SlotsMatch(c, s);
    if events != [] {
      StepKeepsInv(c, s, events[0]);
      KeptAlive(c, Next(c, s, events[0]), events[1..]);
    }
  }

  /** Over a whole run that keeps its handles, code 0 means that every step was attempted, and closed. */
  lemma {:induction false} KeptAliveExits(c: Config, events: seq<Event>, s: State)
    requires Reaches(c, events, s) && HandlesGone !in events
    ensures ExitCode(s) == Some(0)
            <==> s.drain.Exited? && |s.drain.outcomes| == |c.steps| && AllClosed(s.drain.outcomes)
  {
    hide RunFrom;
    InitialInv(c);
    KeptAlive(c, Initial(c), events);
    SafetyOverAllRuns(c, events, s);
  }

  /** The process ends with code 0 in the middle of its drain. */
  ghost predicate DrainLost(c: Config, s: State, events: seq<Event>)
    requires Inv(c, s)
  {
    var t := RunFrom(c, s, events);
    t.Some? && t.value.emptied && t.value.drain.Draining? && |t.value.drain.outcomes| < |c.steps|
  }

  /**
   * Exactly when a drain can be lost: the timers are unreferenced, so as long as some step
   * is still to close, the last handle may go while it hangs. Then the process ends with
   * code 0, that step has no outcome, and the later ones are never attempted.
   */
  lemma {:induction false} DrainLostIffStepOpen(c: Config, s: State)
    requires Inv(c, s) && Alive(s) && s.boot.Booted? && s.drain.Draining?
    ensures (exists events :: DrainLost(c, s, events)) <==> StepOpen(c, s)
  {
    hide Inv;
    if StepOpen(c, s) {
      var events := LoseHandles(c, s);
      assert DrainLost(c, s, events);
    } else {
      forall events
        ensures !DrainLost(c, s, events)
      {
        if RunFrom(c, s, events).Some? {
          OutcomesStay(c, s, events);
        }
      }
    }
  }

  /** Nothing waits for its continuation: the handles go, and the loop is empty. */
  lemma {:induction false} LoseHandles(c: Config, s: State) returns (events: seq<Event>)
    requires Inv(c, s) && Alive(s) && !Continues(c, s)
    ensures RunFrom(c, s, events) == Some(s.(live := false, emptied := true))
  {
    hide Inv;
    SlotsMatch(c, s);
    var gone := s.(live := false);
    if s.live {
      StepKeepsInv(c, s, HandlesGone);
    }
    assert Next(c, gone, LoopEmpties) == s.(live := false, emptied := true);
    StepKeepsInv(c, gone, LoopEmpties);
    var ended := Next(c, gone, LoopEmpties);
    assert RunFrom(c, ended, []) == Some(ended);
    assert [LoopEmpties][1..] == [] && [HandlesGone, LoopEmpties][1..] == [LoopEmpties];
    assert RunFrom(c, gone, [LoopEmpties]) == Some(ended);
    events := if s.live then [HandlesGone, LoopEmpties] else [LoopEmpties];
  }

  /** Once every step has an outcome, no run loses one. */
  lemma {:induction false} OutcomesStay(c: Config, s: State, events: seq<Event>)
    requires Inv(c, s) && !s.drain.NotDraining? && |s.drain.outcomes| >= |c.steps| && RunFrom(c, s, events).Some?
    ensures !RunFrom(c, s, events).value.drain.NotDraining?
    ensures |RunFrom(c, s, events).value.drain.outcomes| >= |c.steps|
    decreases |events|
  {
    hide Inv;
    SlotsMatch(c, s);
    if events != [] {
      StepKeepsInv(c, s, events[0]);
      OutcomesStay(c, Next(c, s, events[0]), events[1..]);
    }
  }

  ghost predicate BootLost(c: Config, s: State, events: seq<Event>)
    requires Inv(c, s)
  {
    var t := RunFrom(c, s, events);
    t.Some? && t.value.emptied && t.value.boot.Booting?
  }

  /**
   * Likewise the server may end with code 0 before it ever listens, exactly as long as some
   * dependency has no result.
   */
  lemma {:induction false} BootLostIffPending(c: Config, s: State)
    requires Inv(c, s) && Alive(s) && s.boot.Booting? && s.drain.NotDraining?
    ensures (exists events :: BootLost(c, s, events)) <==> !AllFilled(s.boot.slots)
  {
    hide Inv;
    if !AllFilled(s.boot.slots) {
      var events := LoseHandles(c, s);
      assert BootLost(c, s, events);
    } else {
      forall events
        ensures !BootLost(c, s, events)
      {
        if RunFrom(c, s, events).Some? {
          FilledStays(c, s, events);
        }
      }
    }
  }

  lemma {:induction false} FilledStays(c: Config, s: State, events: seq<Event>)
    requires Inv(c, s) && !s.emptied && RunFrom(c, s, events).Some? && (s.boot.Booting? ==> AllFilled(s.boot.slots))
    ensures RunFrom(c, s, events).value.boot.Booting? ==> !RunFrom(c, s, events).value.emptied
    decreases |events|
  {
    hide Inv;
    SlotsMatch(c, s);
    if events != [] && !Next(c, s, events[0]).emptied {
      StepKeepsInv(c, s, events[0]);
      FilledStays(c, Next(c, s, events[0]), events[1..]);
    } else if events != [] {
      StepKeepsInv(c, s, events[0]);
      EndedIsFinal(c, Next(c, s, events[0]), events[1..]);
    }
  }

  lemma {:induction false} EndedIsFinal(c: Config, s: State, events: seq<Event>)
    requires Inv(c, s) && !Alive(s) && RunFrom(c, s, events).Some?
    ensures events == []
  {
    hide Inv;
  }
}
