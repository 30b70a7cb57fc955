/** The server process as an event machine: dependencies settling or hanging, signals, and the drain, in every order. */
module LifecycleMachine {
  import opened Text
  import opened Lifecycle

  /** `handlersFirst` would install the signal handlers before initialisation; the server installs them after it. */
  datatype Config = Config(deps: seq<Dependency>, steps: seq<ShutdownStep>, handlersFirst: bool)

  datatype Boot = Booting(slots: seq<Option<DependencyResult>>) | Booted(at: nat)

  datatype Drain =
    | NotDraining
    | Draining(startedAt: nat, stepStart: nat, outcomes: seq<ShutdownOutcome>)
    | Exited(startedAt: nat, at: nat, outcomes: seq<ShutdownOutcome>, code: int)

  /**
   * `drains` counts how often a drain was started; `killed` is the end by a signal that
   * nothing handles. `live` says whether anything but the timers, which are unreferenced,
   * keeps the event loop going; `emptied` is the end, with code 0, of a loop that nothing does.
   */
  datatype State = State(now: nat, phase: Phase, results: seq<DependencyResult>, boot: Boot, drain: Drain, drains: nat,
                         killed: bool, live: bool, emptied: bool)

  datatype Event =
    | Tick
    | DependencySettles(k: nat, ok: bool)
    | DependencyTimer(k: nat)
    | BootEnds
    | Signal
    | StepSettles(ok: bool)
    | StepTimer
    | DrainEnds
    | HandlesGone
    | LoopEmpties

  function Initial(c: Config): State {
    State(0, Starting, [], Booting(seq(|c.deps|, k => None)), NotDraining, 0, false, true, false)
  }

  predicate Alive(s: State) {
    !s.killed && !s.emptied && !s.drain.Exited?
  }

  predicate Pending(s: State, k: nat) {
    s.boot.Booting? && k < |s.boot.slots| && s.boot.slots[k].None?
  }

  predicate AllFilled(slots: seq<Option<DependencyResult>>) {
    forall k :: 0 <= k < |slots| ==> slots[k].Some?
  }

  predicate StepOpen(c: Config, s: State) {
    s.drain.Draining? && |s.drain.outcomes| < |c.steps|
  }

  /** A wait is over and its continuation runs before the loop can empty. */
  predicate Continues(c: Config, s: State) {
    || (s.boot.Booting? && AllFilled(s.boot.slots))
    || (s.drain.Draining? && |s.drain.outcomes| >= |c.steps|)
  }

  /** Something must happen in this millisecond: a timer is due, or a wait is over. */
  predicate Due(c: Config, s: State) {
    || Continues(c, s)
    || (s.boot.Booting? && exists k :: 0 <= k < |c.deps| && Pending(s, k) && c.deps[k].timeoutMs <= s.now)
    || (StepOpen(c, s) && s.drain.stepStart + c.steps[|s.drain.outcomes|].timeoutMs <= s.now)
  }

  predicate Enabled(c: Config, s: State, e: Event) {
    Alive(s) && match e
      case Tick => s.live && !Due(c, s)
      case DependencySettles(k, _) => k < |c.deps| && Pending(s, k) && (s.live || s.now == 0)
      case DependencyTimer(k) => s.live && k < |c.deps| && Pending(s, k) && c.deps[k].timeoutMs <= s.now
      case BootEnds => s.boot.Booting? && AllFilled(s.boot.slots)
      case Signal => s.live
      case StepSettles(_) => StepOpen(c, s) && (s.live || s.now == s.drain.stepStart)
      case StepTimer =>
        s.live && StepOpen(c, s) && s.drain.stepStart + c.steps[|s.drain.outcomes|].timeoutMs <= s.now
      case DrainEnds => s.drain.Draining? && |s.drain.outcomes| >= |c.steps|
      case HandlesGone => s.live
      case LoopEmpties => !s.live && !Continues(c, s)
  }

  function Values(slots: seq<Option<DependencyResult>>): (results: seq<DependencyResult>)
    requires AllFilled(slots)
  {
    seq(|slots|, k requires 0 <= k < |slots| => slots[k].value)
  }

  function FillSlot(c: Config, s: State, k: nat, state: DependencyState): (t: State)
    requires k < |c.deps| && Pending(s, k)
  {
    s.(boot := Booting(s.boot.slots[k := Some(DependencyResult(c.deps[k].name, c.deps[k].kind, state, s.now))]))
  }

  function EndStep(c: Config, s: State, state: StepState): (t: State)
    requires StepOpen(c, s) && s.drain.stepStart <= s.now
  {
    var o := ShutdownOutcome(c.steps[|s.drain.outcomes|].name, state, s.now - s.drain.stepStart);
    s.(drain := Draining(s.drain.startedAt, s.now, s.drain.outcomes + [o]))
  }

  /** Ending the boot sets the phase, whatever it was, and opens the listening socket. */
  function Next(c: Config, s: State, e: Event): (t: State)
    requires Enabled(c, s, e) && (s.drain.Draining? ==> s.drain.stepStart <= s.now)
  {
    match e
    case Tick => s.(now := s.now + 1)
    case DependencySettles(k, ok) => FillSlot(c, s, k, if ok then DependencyReady else DependencyFailed)
    case DependencyTimer(k) => FillSlot(c, s, k, DependencyTimedOut)
    case BootEnds =>
      var results := Values(s.boot.slots);
      s.(results := results, phase := if RequiredAreReady(results) then Ready else Degraded, boot := Booted(s.now),
         live := true)
    case Signal =>
      if !c.handlersFirst && s.boot.Booting? then s.(killed := true)
      else if s.drain.Draining? then s
      else s.(phase := ShuttingDown, drain := Draining(s.now, s.now, []), drains := s.drains + 1)
    case StepSettles(ok) => EndStep(c, s, if ok then Closed else CloseFailed)
    case StepTimer => EndStep(c, s, CloseTimedOut)
    case DrainEnds =>
      var d := s.drain;
      s.(drain := Exited(d.startedAt, s.now, d.outcomes, if AllClosed(d.outcomes) then 0 else 1))
    case HandlesGone => s.(live := false)
    case LoopEmpties => s.(emptied := true)
  }

  // ----- what every step keeps

  ghost predicate BootInv(c: Config, s: State) {
    match s.boot
    case Booting(slots) =>
      && s.now <= LongestTimeout(c.deps) && |slots| == |c.deps| && s.results == []
      && forall k :: 0 <= k < |slots| ==> SlotInv(c.deps[k], slots[k], s.now)
    case Booted(at) => at <= LongestTimeout(c.deps) && OneResultEach(c.deps, s.results)
  }

  ghost predicate SlotInv(d: Dependency, slot: Option<DependencyResult>, now: nat) {
    match slot
    case None => now <= d.timeoutMs
    case Some(r) => Reports(d, r)
  }

  ghost predicate DrainInv(c: Config, s: State) {
    match s.drain
    case NotDraining => s.drains == 0
    case Draining(startedAt, stepStart, outcomes) =>
      && s.drains == 1 && Attempted(c.steps, outcomes)
      && stepStart == startedAt + TotalDuration(outcomes) && stepStart <= s.now
      && s.now <= stepStart + (if |outcomes| < |c.steps| then c.steps[|outcomes|].timeoutMs else 0)
    case Exited(startedAt, at, outcomes, code) =>
      && s.drains == 1 && |outcomes| == |c.steps| && Attempted(c.steps, outcomes)
      && at == startedAt + TotalDuration(outcomes)
      && code == if AllClosed(outcomes) then 0 else 1
  }

  ghost predicate PhaseInv(c: Config, s: State) {
    && (s.drain.NotDraining? ==>
          s.phase == if s.boot.Booting? then Starting else if RequiredAreReady(s.results) then Ready else Degraded)
    && (!s.drain.NotDraining? && (s.boot.Booting? || !c.handlersFirst) ==> s.phase == ShuttingDown)
    && (!s.drain.NotDraining? && !c.handlersFirst ==> s.boot.Booted?)
  }

  ghost predicate Inv(c: Config, s: State) {
    BootInv(c, s) && DrainInv(c, s) && PhaseInv(c, s)
  }

  lemma {:induction false} InitialInv(c: Config)
    ensures Inv(c, Initial(c))
  {
  }

  lemma {:induction false} BootKept(c: Config, s: State, e: Event)
    requires Inv(c, s) && Enabled(c, s, e)
    ensures BootInv(c, Next(c, s, e))
  {
    hide DrainInv, PhaseInv, TotalDuration, Attempted;
    if e.Tick? && s.boot.Booting? {
      var k :| 0 <= k < |s.boot.slots| && s.boot.slots[k].None?;
      assert Pending(s, k) && SlotInv(c.deps[k], s.boot.slots[k], s.now);
    }
  }

  lemma {:induction false} DrainKept(c: Config, s: State, e: Event)
    requires Inv(c, s) && Enabled(c, s, e)
    ensures DrainInv(c, Next(c, s, e))
  {
    hide BootInv, LongestTimeout, AllFilled;
    if e.StepSettles? || e.StepTimer? {
      var t := Next(c, s, e);
      assert t.drain.outcomes[..|s.drain.outcomes|] == s.drain.outcomes;
    }
  }

  lemma {:induction false} StepKeepsInv(c: Config, s: State, e: Event)
    requires Inv(c, s) && Enabled(c, s, e)
    ensures Inv(c, Next(c, s, e))
    ensures s.phase == ShuttingDown && s.boot.Booted?
            ==> Next(c, s, e).phase == ShuttingDown && Next(c, s, e).boot.Booted?
  {
    BootKept(c, s, e);
    DrainKept(c, s, e);
    PhaseKept(c, s, e);
  }

  lemma {:induction false} PhaseKept(c: Config, s: State, e: Event)
    requires Inv(c, s) && Enabled(c, s, e)
    ensures PhaseInv(c, Next(c, s, e))
    ensures s.phase == ShuttingDown && s.boot.Booted?
            ==> Next(c, s, e).phase == ShuttingDown && Next(c, s, e).boot.Booted?
  {
    hide BootInv, LongestTimeout, AllFilled, RequiredAreReady, TotalDuration, Attempted;
  }

  // ----- whole runs

  /** Where the events lead, if each can happen when its turn comes. */
  ghost function RunFrom(c: Config, s: State, events: seq<Event>): (t: Option<State>)
    requires Inv(c, s)
    ensures t.Some? ==> Inv(c, t.value)
    decreases |events|
  {
    if events == [] then Some(s)
    else if !Enabled(c, s, events[0]) then None
    else
      StepKeepsInv(c, s, events[0]);
      RunFrom(c, Next(c, s, events[0]), events[1..])
  }

  ghost predicate Reaches(c: Config, events: seq<Event>, s: State) {
    InitialInv(c);
    RunFrom(c, Initial(c), events) == Some(s)
  }
}
