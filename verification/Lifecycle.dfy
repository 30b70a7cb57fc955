/** Starting every dependency within its own time limit, and closing everything within a bounded deadline. */
module Lifecycle {
  import opened Text

  // ----- one bounded wait

  /** When a promise settles, in milliseconds after it was started. */
  datatype Settling = Resolves(at: nat) | Rejects(at: nat) | Never

  datatype Ended = Finished | Threw | TimedOut
  datatype Race = Race(ended: Ended, elapsed: nat)

  /**
   * A started promise, while something else keeps the event loop alive: the timer itself
   * does not. `timerFirst` says which of promise and timer wins when both are
   * due in the same millisecond.
   */
  datatype Work = Work(settling: Settling, timerFirst: bool)

  predicate BeatsTimer(at: nat, ms: nat, timerFirst: bool) {
    at < ms || (at == ms && !timerFirst)
  }

  /** The promise resolves within the limit. */
  predicate ResolvesWithin(w: Work, ms: nat) {
    w.settling.Resolves? && w.settling.at <= ms && (w.settling.at == ms ==> !w.timerFirst)
  }

  /** The promise rejects within the limit. */
  predicate RejectsWithin(w: Work, ms: nat) {
    w.settling.Rejects? && w.settling.at <= ms && (w.settling.at == ms ==> !w.timerFirst)
  }

  function WithTimeout(w: Work, ms: nat): (r: Race)
    ensures r.elapsed <= ms
    ensures r.ended == TimedOut ==> r.elapsed == ms
  {
    match w.settling
    case Resolves(at) => if BeatsTimer(at, ms, w.timerFirst) then Race(Finished, at) else Race(TimedOut, ms)
    case Rejects(at) => if BeatsTimer(at, ms, w.timerFirst) then Race(Threw, at) else Race(TimedOut, ms)
    case Never => Race(TimedOut, ms)
  }

  // ----- starting

  datatype Kind = Required | Optional
  datatype DependencyState = DependencyReady | DependencyFailed | DependencyTimedOut
  datatype Dependency = Dependency(name: string, kind: Kind, timeoutMs: nat)
  datatype DependencyResult = DependencyResult(name: string, kind: Kind, state: DependencyState, durationMs: nat)
  datatype Phase = Starting | Ready | Degraded | ShuttingDown

  /** Ready, failed or timed out by how and when its promise settles, and nothing else. */
  function ResultOf(d: Dependency, w: Work): (r: DependencyResult)
    ensures r.state == DependencyReady <==> ResolvesWithin(w, d.timeoutMs)
    ensures r.state == DependencyFailed <==> RejectsWithin(w, d.timeoutMs)
    ensures r.state == DependencyTimedOut ==> r.durationMs == d.timeoutMs
    ensures r.state != DependencyTimedOut ==> !w.settling.Never? && r.durationMs == w.settling.at
  {
    var race := WithTimeout(w, d.timeoutMs);
    var state :=
      match race.ended
      case Finished => DependencyReady
      case Threw => DependencyFailed
      case TimedOut => DependencyTimedOut;
    DependencyResult(d.name, d.kind, state, race.elapsed)
  }

  function LongestTimeout(deps: seq<Dependency>): (t: nat)
    ensures forall k :: 0 <= k < |deps| ==> deps[k].timeoutMs <= t
    ensures deps == [] ==> t == 0
    ensures deps != [] ==> exists k :: 0 <= k < |deps| && deps[k].timeoutMs == t
  {
    if deps == [] then 0
    else
      var t := LongestTimeout(deps[1..]);
      assert deps == [deps[0]] + deps[1..];
      if |deps| > 1 && deps[0].timeoutMs < t then t else deps[0].timeoutMs
  }

  predicate RequiredAreReady(results: seq<DependencyResult>) {
    forall k :: 0 <= k < |results| && results[k].kind == Required ==> results[k].state == DependencyReady
  }

  /** `r` is how `d` may end: within its limit, and timed out only at the limit. */
  predicate Reports(d: Dependency, r: DependencyResult) {
    && r.name == d.name && r.kind == d.kind && r.durationMs <= d.timeoutMs
    && (r.state == DependencyTimedOut ==> r.durationMs == d.timeoutMs)
  }

  /** These are exactly the reports that some behaviour of the starting function brings about. */
  lemma {:induction false} ReportsIffSomeWork(d: Dependency, r: DependencyResult)
    ensures Reports(d, r) <==> exists w :: ResultOf(d, w) == r
  {
    if Reports(d, r) {
      var settling :=
        match r.state
        case DependencyReady => Resolves(r.durationMs)
        case DependencyFailed => Rejects(r.durationMs)
        case DependencyTimedOut => Never;
      assert ResultOf(d, Work(settling, false)) == r;
    }
  }

  predicate OneResultEach(deps: seq<Dependency>, results: seq<DependencyResult>) {
    |results| == |deps| && forall k :: 0 <= k < |deps| ==> Reports(deps[k], results[k])
  }

  /** How long the slowest of the concurrent starts took. */
  function Longest(results: seq<DependencyResult>): (t: nat)
    ensures forall k :: 0 <= k < |results| ==> results[k].durationMs <= t
    ensures results == [] ==> t == 0
    ensures results != [] ==> exists k :: 0 <= k < |results| && results[k].durationMs == t
  {
    if results == [] then 0
    else
      var t := Longest(results[1..]);
      assert results == [results[0]] + results[1..];
      if |results| > 1 && results[0].durationMs < t then t else results[0].durationMs
  }

  lemma {:induction false} LongestWithin(deps: seq<Dependency>, results: seq<DependencyResult>)
    requires OneResultEach(deps, results)
    ensures Longest(results) <= LongestTimeout(deps)
  {
    if results != [] {
      var k :| 0 <= k < |results| && results[k].durationMs == Longest(results);
      assert Reports(deps[k], results[k]);
    }
  }

  // ----- stopping

  datatype StepState = Closed | CloseFailed | CloseTimedOut
  datatype ShutdownStep = ShutdownStep(name: string, timeoutMs: nat)
  datatype ShutdownOutcome = ShutdownOutcome(name: string, state: StepState, durationMs: nat)

  /** Closed, failed or timed out by how and when its promise settles, and nothing else. */
  function OutcomeOf(step: ShutdownStep, w: Work): (o: ShutdownOutcome)
    ensures o.state == Closed <==> ResolvesWithin(w, step.timeoutMs)
    ensures o.state == CloseFailed <==> RejectsWithin(w, step.timeoutMs)
    ensures o.state == CloseTimedOut ==> o.durationMs == step.timeoutMs
    ensures o.state != CloseTimedOut ==> !w.settling.Never? && o.durationMs == w.settling.at
  {
    var race := WithTimeout(w, step.timeoutMs);
    var state :=
      match race.ended
      case Finished => Closed
      case Threw => CloseFailed
      case TimedOut => CloseTimedOut;
    ShutdownOutcome(step.name, state, race.elapsed)
  }

  /** `o` is how `step` may end. */
  predicate Ends(step: ShutdownStep, o: ShutdownOutcome) {
    && o.name == step.name && o.durationMs <= step.timeoutMs
    && (o.state == CloseTimedOut ==> o.durationMs == step.timeoutMs)
  }

  /** The first steps, each attempted once and in order. */
  predicate Attempted(steps: seq<ShutdownStep>, outcomes: seq<ShutdownOutcome>) {
    |outcomes| <= |steps| && forall k :: 0 <= k < |outcomes| ==> Ends(steps[k], outcomes[k])
  }

  /** These are exactly the ends that some behaviour of the closing function brings about. */
  lemma {:induction false} EndsIffSomeWork(step: ShutdownStep, o: ShutdownOutcome)
    ensures Ends(step, o) <==> exists w :: OutcomeOf(step, w) == o
  {
    if Ends(step, o) {
      var settling :=
        match o.state
        case Closed => Resolves(o.durationMs)
        case CloseFailed => Rejects(o.durationMs)
        case CloseTimedOut => Never;
      assert OutcomeOf(step, Work(settling, false)) == o;
    }
  }

  function TotalTimeout(steps: seq<ShutdownStep>): (t: nat) {
    if steps == [] then 0 else steps[0].timeoutMs + TotalTimeout(steps[1..])
  }

  function TotalDuration(outcomes: seq<ShutdownOutcome>): (t: nat) {
    if outcomes == [] then 0 else TotalDuration(outcomes[..|outcomes| - 1]) + outcomes[|outcomes| - 1].durationMs
  }

  predicate AllClosed(outcomes: seq<ShutdownOutcome>) {
    forall k :: 0 <= k < |outcomes| ==> outcomes[k].state == Closed
  }

  /** What remains of the budget after some steps covers what remains of the steps. */
  lemma {:induction false} WithinBudget(steps: seq<ShutdownStep>, outcomes: seq<ShutdownOutcome>)
    requires Attempted(steps, outcomes)
    ensures TotalDuration(outcomes) + TotalTimeout(steps[|outcomes|..]) <= TotalTimeout(steps)
    decreases |outcomes|
  {
    var n := |outcomes| - 1;
    if outcomes == [] {
      assert steps[0..] == steps;
    } else {
      WithinBudget(steps, outcomes[..n]);
      assert steps[n..] == [steps[n]] + steps[n + 1..] && steps[n..][1..] == steps[n + 1..];
      assert Ends(steps[n], outcomes[n]);
    }
  }

  /** The bound is met: when nothing ever closes, every step takes its whole limit. */
  lemma {:induction false} BudgetIsTight(steps: seq<ShutdownStep>, outcomes: seq<ShutdownOutcome>)
    requires Attempted(steps, outcomes) && |outcomes| == |steps|
    requires forall k :: 0 <= k < |outcomes| ==> outcomes[k].state == CloseTimedOut
    ensures TotalDuration(outcomes) == TotalTimeout(steps)
  {
    TightFrom(steps, outcomes);
    assert steps[|outcomes|..] == [];
  }

  lemma {:induction false} TightFrom(steps: seq<ShutdownStep>, outcomes: seq<ShutdownOutcome>)
    requires Attempted(steps, outcomes) && forall k :: 0 <= k < |outcomes| ==> outcomes[k].state == CloseTimedOut
    ensures TotalDuration(outcomes) + TotalTimeout(steps[|outcomes|..]) == TotalTimeout(steps)
    decreases |outcomes|
  {
    var n := |outcomes| - 1;
    if outcomes == [] {
      assert steps[0..] == steps;
    } else {
      TightFrom(steps, outcomes[..n]);
      assert steps[n..] == [steps[n]] + steps[n + 1..] && steps[n..][1..] == steps[n + 1..];
      assert Ends(steps[n], outcomes[n]);
    }
  }

  class Lifecycle {
    var phase: Phase
    var results: seq<DependencyResult>

    constructor ()
      ensures phase == Starting && results == []
    {
      phase := Starting;
      results := [];
    }

    /**
     * The dependencies run concurrently, each writing its own result; the phase is decided
     * when the last has ended, which is within the longest of their limits.
     */
    method InitializeDependencies(deps: seq<Dependency>, works: seq<Work>, exitOnRequiredFailure: bool)
      returns (all: seq<DependencyResult>, elapsed: nat, exit: Option<int>)
      requires |works| == |deps|
      modifies this
      ensures results == all && OneResultEach(deps, all)
      ensures forall k :: 0 <= k < |deps| ==> all[k] == ResultOf(deps[k], works[k])
      ensures elapsed == Longest(all) <= LongestTimeout(deps)
      ensures phase == Ready || phase == Degraded
      ensures phase == Ready <==>
                forall k :: 0 <= k < |deps| && deps[k].kind == Required ==> ResolvesWithin(works[k], deps[k].timeoutMs)
      ensures exit == if exitOnRequiredFailure && phase == Degraded then Some(1) else None
    {
      all := seq(|deps|, k requires 0 <= k < |deps| => ResultOf(deps[k], works[k]));
      elapsed := Longest(all);
      LongestWithin(deps, all);
      results := all;
      phase := if RequiredAreReady(all) then Ready else Degraded;
      exit := if phase == Degraded && exitOnRequiredFailure then Some(1) else None;
    }

    /** Every step is attempted, in order, whatever became of the ones before it. */
    method Shutdown(steps: seq<ShutdownStep>, works: seq<Work>) returns (outcomes: seq<ShutdownOutcome>, elapsed: nat)
      requires |works| == |steps|
      modifies this
      ensures phase == ShuttingDown && results == old(results)
      ensures |outcomes| == |steps| && Attempted(steps, outcomes)
      ensures forall k :: 0 <= k < |steps| ==> outcomes[k] == OutcomeOf(steps[k], works[k])
      ensures forall k :: 0 <= k < |steps| ==>
                && (outcomes[k].state == Closed <==> ResolvesWithin(works[k], steps[k].timeoutMs))
                && (outcomes[k].state == CloseFailed <==> RejectsWithin(works[k], steps[k].timeoutMs))
      ensures elapsed == TotalDuration(outcomes) <= TotalTimeout(steps)
    {
      phase := ShuttingDown;
      outcomes, elapsed := [], 0;
      for k := 0 to |steps|
        invariant |outcomes| == k && forall j :: 0 <= j < k ==> outcomes[j] == OutcomeOf(steps[j], works[j])
        invariant elapsed == TotalDuration(outcomes)
        invariant phase == ShuttingDown && results == old(results)
      {
        var outcome := OutcomeOf(steps[k], works[k]);
        assert (outcomes + [outcome])[..k] == outcomes;
        outcomes := outcomes + [outcome];
        elapsed := elapsed + outcome.durationMs;
      }
      WithinBudget(steps, outcomes);
    }
  }

  class SignalHandlers {
    const lifecycle: Lifecycle
    var running: bool

    constructor (lifecycle: Lifecycle)
      ensures this.lifecycle == lifecycle && !running
    {
      this.lifecycle := lifecycle;
      running := false;
    }

    /**
     * The first signal drains and exits, with 0 exactly when every closing promise resolves
     * within its limit; any later one changes nothing.
     */
    method Handle(steps: seq<ShutdownStep>, works: seq<Work>) returns (exit: Option<int>)
      requires |works| == |steps|
      modifies this, lifecycle
      ensures running
      ensures old(running) ==>
                && exit == None
                && lifecycle.phase == old(lifecycle.phase) && lifecycle.results == old(lifecycle.results)
      ensures !old(running) ==>
                && lifecycle.phase == ShuttingDown && lifecycle.results == old(lifecycle.results)
                && exit.Some? && (exit.value == 0 || exit.value == 1)
                && (exit.value == 0 <==>
                      forall k :: 0 <= k < |steps| ==> ResolvesWithin(works[k], steps[k].timeoutMs))
    {
      if running {
        return None;
      }
      running := true;
      var outcomes, _ := lifecycle.Shutdown(steps, works);
      exit := Some(if AllClosed(outcomes) then 0 else 1);
    }
  }
}
