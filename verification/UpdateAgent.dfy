/**
 * The update agent's state machine, one refresh tick at a time (src/update_agent/mod.rs,
 * src/update_agent/actor.rs).
 */
module UpdateAgent {
  import opened Wrappers
  import opened Releases
  import opened ReleaseSets
  import opened UpdateGraph
  import opened Strategy

  /** Refresh period of most states, in seconds. */
  const DEFAULT_REFRESH_PERIOD_SECS: uint64 := 300

  /** Refresh period of the end state, in seconds. */
  const END_INTERVAL_SECS: uint64 := 10800

  /** How long one postponement delays finalization, in seconds. */
  const DEFAULT_POSTPONEMENT_TIME_SECS: uint64 := 60

  /** Failed deploy attempts in a row after which an update is abandoned. */
  const MAX_DEPLOY_ATTEMPTS: uint8 := 12

  /** Postponements after which finalization no longer waits for users. */
  const MAX_FINALIZE_POSTPONEMENTS: uint8 := 10

  datatype MachineState =
    | StartState
    | Initialized
    | ReportedSteady
    | NoNewUpdate
    | UpdateAvailable(release: Release, failures: uint8)
    | UpdateStaged(release: Release, postponements: uint8)
    | UpdateFinalized(release: Release)
    | EndState

  datatype AgentState = AgentState(machine: MachineState, denylist: ReleaseSet)

  /** The read-only part of an agent. */
  datatype Info = Info(
    enabled: bool,
    allowDowngrade: bool,
    currentOs: Release,
    stream: string,
    steadyInterval: uint64,
    strategy: UpdateStrategy,
    parse: ReferenceParser)

  type PendingQuery = Result<Option<(Release, string)>, ()>

  /**
   * Everything a tick may learn from outside. A tick reads only the part that its state
   * asks for: local deployments, the lock manager's answer and the minute of the week,
   * the fetched graph, the outcome of deploying, the pending deployment with its stream,
   * the number of interactive sessions and the override file, the outcome of finalizing,
   * and the random draw for jitter.
   */
  datatype Inputs = Inputs(
    localDeployments: Option<ReleaseSet>,
    minute: nat,
    lockReply: HttpOutcome,
    graph: Option<Graph>,
    deployed: bool,
    pending: PendingQuery,
    sessions: Option<nat>,
    overridden: bool,
    finalized: bool,
    draw: nat)

  const INITIAL_STATE := AgentState(StartState, [])

  /** The update hint: errors while fetching or selecting count as no update. */
  function UpdateHint(info: Info, denylist: ReleaseSet, graph: Option<Graph>): Option<Release> {
    match graph
    case None => None
    case Some(g) =>
      match Select(Reader(info.parse), g, info.currentOs, denylist, info.allowDowngrade)
      case Err(_) => None
      case Ok(update) => update
  }

  /**
   * Whether the pending deployment is the release asked for and on the right stream; an error if it is
   * not that release.
   */
  function OnCorrectStream(info: Info, pending: PendingQuery, release: Release): Result<bool, ()> {
    match pending
    case Err(_) => Err(())
    case Ok(None) => Err(())
    case Ok(Some((deployment, stream))) =>
      if deployment.version != release.version then Err(())
      else if deployment.payload != release.payload then Err(())
      else Ok(info.stream == stream)
  }

  /** The outcome of staging: an error when deploying or confirming failed, else whether the stream was right. */
  function StageOutcome(info: Info, inputs: Inputs, release: Release): Result<bool, ()> {
    if !inputs.deployed then Err(()) else OnCorrectStream(info, inputs.pending, release)
  }

  /** Failure to list sessions counts as nobody being logged in. */
  function SessionCount(inputs: Inputs): nat {
    match inputs.sessions
    case None => 0
    case Some(n) => n
  }

  /** Whether user sessions let the machine finalize. */
  function SessionsPermit(inputs: Inputs, postponements: uint8): bool {
    SessionCount(inputs) == 0 || inputs.overridden || postponements == 0
  }

  /** One refresh tick. */
  function Step(info: Info, s: AgentState, inputs: Inputs): AgentState {
    match s.machine
    case StartState =>
      AgentState(
        if info.enabled then Initialized else EndState,
        if inputs.localDeployments.Some? then inputs.localDeployments.value else s.denylist)
    case Initialized =>
      if ReportSteady(info.strategy, inputs.lockReply) then s.(machine := ReportedSteady) else s
    case ReportedSteady => CheckUpdates(info, s, inputs)
    case NoNewUpdate => CheckUpdates(info, s, inputs)
    case UpdateAvailable(release, failures) => StageUpdate(info, s, inputs, release, failures)
    case UpdateStaged(release, postponements) => FinalizeUpdate(info, s, inputs, release, postponements)
    case UpdateFinalized(_) => s.(machine := EndState)
    case EndState => s
  }

  function CheckUpdates(info: Info, s: AgentState, inputs: Inputs): AgentState {
    match UpdateHint(info, s.denylist, inputs.graph)
    case Some(release) => s.(machine := UpdateAvailable(release, 0))
    case None => s.(machine := NoNewUpdate)
  }

  function StageUpdate(info: Info, s: AgentState, inputs: Inputs, release: Release, failures: uint8): AgentState {
    match StageOutcome(info, inputs, release)
    case Ok(true) => s.(machine := UpdateStaged(release, MAX_FINALIZE_POSTPONEMENTS))
    case Ok(false) => AgentState(NoNewUpdate, Insert(s.denylist, release))
    case Err(_) =>
      var failCount := SaturatingAdd(failures, 1, U8_MAX);
      if failCount >= MAX_DEPLOY_ATTEMPTS then s.(machine := NoNewUpdate)
      else s.(machine := UpdateAvailable(release, failCount))
  }

  function FinalizeUpdate(info: Info, s: AgentState, inputs: Inputs, release: Release, postponements: uint8): AgentState {
    if !CanFinalize(info.strategy, inputs.minute, inputs.lockReply) then
      s.(machine := UpdateStaged(release, MAX_FINALIZE_POSTPONEMENTS))
    else if !SessionsPermit(inputs, postponements) then
      s.(machine := UpdateStaged(release, SaturatingSub(postponements, 1)))
    else if inputs.finalized then s.(machine := UpdateFinalized(release))
    else s
  }

  /** Whether a tick asks the system to finalize and reboot. */
  predicate IssuesFinalize(info: Info, s: AgentState, inputs: Inputs) {
    && s.machine.UpdateStaged?
    && CanFinalize(info.strategy, inputs.minute, inputs.lockReply)
    && SessionsPermit(inputs, s.machine.postponements)
  }

  /** Whether two states are the same but for their contents. */
  predicate SameVariant(a: MachineState, b: MachineState) {
    match a
    case StartState => b.StartState?
    case Initialized => b.Initialized?
    case ReportedSteady => b.ReportedSteady?
    case NoNewUpdate => b.NoNewUpdate?
    case UpdateAvailable(_, _) => b.UpdateAvailable?
    case UpdateStaged(_, _) => b.UpdateStaged?
    case UpdateFinalized(_) => b.UpdateFinalized?
    case EndState => b.EndState?
  }

  /** Whether the next tick follows at once: after a change of state, unless it is from steady to no update. */
  predicate ShouldTickImmediately(prev: MachineState, cur: MachineState) {
    !SameVariant(prev, cur) && !(prev == ReportedSteady && cur == NoNewUpdate)
  }

  /** The delay of a state in seconds, and whether jitter is added to it. */
  function GetRefreshDelay(machine: MachineState, steadyInterval: uint64): (uint64, bool) {
    match machine
    case ReportedSteady => (steadyInterval, true)
    case NoNewUpdate => (steadyInterval, true)
    case UpdateStaged(_, postponements) =>
      if postponements < MAX_FINALIZE_POSTPONEMENTS then (DEFAULT_POSTPONEMENT_TIME_SECS, false)
      else (DEFAULT_REFRESH_PERIOD_SECS, true)
    case EndState => (END_INTERVAL_SECS, true)
    case _ => (DEFAULT_REFRESH_PERIOD_SECS, true)
  }

  /** A period with jitter added; `draw` is the random number, from 0 to 10. */
  function AddJitter(seconds: uint64, draw: nat): uint64 {
    SaturatingAdd(seconds, SaturatingMul(Max(seconds / 100, 1), draw, U64_MAX), U64_MAX)
  }

  /** The pause before the next tick; none when it follows at once. */
  function RefreshDelay(steadyInterval: uint64, prev: MachineState, cur: MachineState, draw: nat): Option<uint64> {
    if ShouldTickImmediately(prev, cur) then None
    else
      var (delay, jitter) := GetRefreshDelay(cur, steadyInterval);
      Some(if jitter then AddJitter(delay, draw) else delay)
  }

  /**
   * The agent's mutable state. Transitions that the source guards with an assertion or `unreachable!`
   * have a precondition.
   */
  class UpdateAgentState {
    var machineState: MachineState
    var denylist: ReleaseSet

    ghost function State(): AgentState
      reads this
    {
      AgentState(machineState, denylist)
    }

    constructor ()
      ensures State() == INITIAL_STATE
    {
      machineState := StartState;
      denylist := [];
    }

    method BecomeInitialized()
      requires machineState == StartState
      modifies this`machineState
      ensures machineState == Initialized
    {
      machineState := Initialized;
    }

    method BecomeReportedSteady()
      requires machineState == Initialized
      modifies this`machineState
      ensures machineState == ReportedSteady
    {
      machineState := ReportedSteady;
    }

    method BecomeNoNewUpdate()
      requires machineState == ReportedSteady || machineState == NoNewUpdate
      modifies this`machineState
      ensures machineState == NoNewUpdate
    {
      machineState := NoNewUpdate;
    }

    method BecomeUpdateAvailable(update: Release)
      requires machineState == ReportedSteady || machineState == NoNewUpdate
      modifies this`machineState
      ensures machineState == UpdateAvailable(update, 0)
    {
      machineState := UpdateAvailable(update, 0);
    }

    /** Record a failed deploy attempt; tell whether the update was abandoned, and the number of failures. */
    method RecordFailedDeploy() returns (abandoned: bool, failCount: uint8)
      requires machineState.UpdateAvailable?
      modifies this`machineState
      ensures failCount == SaturatingAdd(old(machineState).failures, 1, U8_MAX)
      ensures abandoned <==> failCount >= MAX_DEPLOY_ATTEMPTS
      ensures machineState == if abandoned then NoNewUpdate else UpdateAvailable(old(machineState).release, failCount)
    {
      var release := machineState.release;
      failCount := SaturatingAdd(machineState.failures, 1, U8_MAX);
      abandoned := failCount >= MAX_DEPLOY_ATTEMPTS;
      if abandoned {
        UpdateAbandoned();
      } else {
        DeployFailed(release, failCount);
      }
    }

    method DeployFailed(update: Release, failCount: uint8)
      modifies this`machineState
      ensures machineState == UpdateAvailable(update, failCount)
    {
      machineState := UpdateAvailable(update, failCount);
    }

    method UpdateAbandoned()
      modifies this`machineState
      ensures machineState == NoNewUpdate
    {
      machineState := NoNewUpdate;
    }

    method BecomeUpdateStaged(update: Release)
      modifies this`machineState
      ensures machineState == UpdateStaged(update, MAX_FINALIZE_POSTPONEMENTS)
    {
      machineState := UpdateStaged(update, MAX_FINALIZE_POSTPONEMENTS);
    }

    /**
     * Whether interactive sessions permit finalization, and the delay in seconds that is
     * broadcast to them, if any. The state is only looked at when sessions are to be waited for.
     */
    method HandleInteractiveSessions(sessions: nat, overridden: bool) returns (permitted: bool, announced: Option<uint64>)
      requires sessions == 0 || overridden || machineState.UpdateStaged?
      ensures permitted <==> sessions == 0 || overridden || machineState.postponements == 0
      ensures announced == Announcement(machineState, permitted)
    {
      if sessions == 0 {
        return true, None;
      }
      if overridden {
        return true, None;
      }
      var postponements := machineState.postponements;
      if postponements == 0 {
        return true, None;
      }
      if postponements == MAX_FINALIZE_POSTPONEMENTS {
        return false, Some(SaturatingMul(DEFAULT_POSTPONEMENT_TIME_SECS, MAX_FINALIZE_POSTPONEMENTS, U64_MAX));
      } else if postponements == 1 {
        return false, Some(DEFAULT_POSTPONEMENT_TIME_SECS);
      }
      return false, None;
    }

    method RecordPostponement()
      requires machineState.UpdateStaged?
      modifies this`machineState
      ensures machineState ==
              UpdateStaged(old(machineState).release, SaturatingSub(old(machineState).postponements, 1))
    {
      machineState := UpdateStaged(machineState.release, SaturatingSub(machineState.postponements, 1));
    }

    method BecomeUpdateFinalized(update: Release)
      modifies this`machineState
      ensures machineState == UpdateFinalized(update)
    {
      machineState := UpdateFinalized(update);
    }

    method End()
      modifies this`machineState
      ensures machineState == EndState
    {
      machineState := EndState;
    }

    /** Initialize the agent: remember the finalized local deployments, then start or stop. */
    method TickInitialize(info: Info, inputs: Inputs)
      requires machineState == StartState
      modifies this
      ensures State() == Step(info, old(State()), inputs)
    {
      match inputs.localDeployments {
        case Some(deployments) => denylist := deployments;
        case None =>
      }
      if info.enabled {
        BecomeInitialized();
      } else {
        End();
      }
    }

    method TickReportSteady(info: Info, inputs: Inputs)
      requires machineState == Initialized
      modifies this`machineState
      ensures State() == Step(info, old(State()), inputs)
    {
      if ReportSteady(info.strategy, inputs.lockReply) {
        BecomeReportedSteady();
      }
    }

    method TickCheckUpdates(info: Info, inputs: Inputs)
      requires machineState == ReportedSteady || machineState == NoNewUpdate
      modifies this`machineState
      ensures State() == Step(info, old(State()), inputs)
    {
      var release: Option<Release> := None;
      if inputs.graph.Some? {
        var update := FindUpdate(info.parse, inputs.graph.value, info.currentOs, denylist, info.allowDowngrade);
        if update.Ok? {
          release := update.value;
        }
      }
      match release
      case Some(r) => BecomeUpdateAvailable(r);
      case None => BecomeNoNewUpdate();
    }

    /**
     * Deploy and confirm the update; whatever fails on the way counts as one failed attempt.
     * The result tells whether the pending deployment is scrubbed.
     */
    method TickStageUpdate(info: Info, inputs: Inputs, release: Release) returns (scrubbed: bool)
      requires machineState.UpdateAvailable? && machineState.release == release
      modifies this
      ensures State() == Step(info, old(State()), inputs)
      ensures scrubbed <==> StageOutcome(info, inputs, release) == Ok(false)
    {
      var outcome: Result<(), ()> := Err(());
      scrubbed := false;
      if inputs.deployed {
        outcome, scrubbed := ConfirmValidStream(info, inputs.pending, release);
      }
      if outcome.Err? {
        var _, _ := RecordFailedDeploy();
      }
    }

    /**
     * Check the pending deployment's stream: go on if it is right, have the deployment
     * scrubbed and abandon and block the update if it is wrong, and leave everything as it
     * is on an error.
     */
    method ConfirmValidStream(info: Info, pending: PendingQuery, release: Release)
      returns (outcome: Result<(), ()>, scrubbed: bool)
      modifies this
      ensures scrubbed <==> OnCorrectStream(info, pending, release) == Ok(false)
      ensures outcome.Ok? <==> OnCorrectStream(info, pending, release).Ok?
      ensures match OnCorrectStream(info, pending, release)
              case Err(_) => State() == old(State())
              case Ok(true) => State() == AgentState(UpdateStaged(release, MAX_FINALIZE_POSTPONEMENTS), old(denylist))
              case Ok(false) => State() == AgentState(NoNewUpdate, Insert(old(denylist), release))
    {
      var isValid := OnCorrectStream(info, pending, release);
      scrubbed := false;
      if isValid.Err? {
        return Err(()), scrubbed;
      }
      if !isValid.value {
        scrubbed := true;
        denylist := Insert(denylist, release);
        UpdateAbandoned();
      } else {
        BecomeUpdateStaged(release);
      }
      return Ok(()), scrubbed;
    }

    /** Ask the strategy, then the sessions, then finalize. The result tells whether finalization was issued. */
    method TickFinalizeUpdate(info: Info, inputs: Inputs, release: Release)
      returns (issued: bool, announced: Option<uint64>)
      requires machineState.UpdateStaged? && machineState.release == release
      modifies this`machineState
      ensures State() == Step(info, old(State()), inputs)
      ensures issued <==> IssuesFinalize(info, old(State()), inputs)
      ensures announced ==
              if CanFinalize(info.strategy, inputs.minute, inputs.lockReply) && !issued
              then Announcement(old(machineState), false) else None
    {
      issued, announced := false, None;
      var strategyCanFinalize := CanFinalize(info.strategy, inputs.minute, inputs.lockReply);
      if !strategyCanFinalize {
        BecomeUpdateStaged(release);
        return;
      }
      var permitted;
      permitted, announced := HandleInteractiveSessions(SessionCount(inputs), inputs.overridden);
      if !permitted {
        RecordPostponement();
        return;
      }
      issued := true;
      if inputs.finalized {
        BecomeUpdateFinalized(release);
      }
    }

    /** Handle one refresh tick; tell whether the state changed, and the pause before the next tick. */
    method RefreshTick(info: Info, inputs: Inputs) returns (changed: bool, pause: Option<uint64>)
      modifies this
      ensures changed <==> !SameVariant(old(machineState), machineState)
      ensures State() == Step(info, old(State()), inputs)
      ensures pause == RefreshDelay(info.steadyInterval, old(machineState), machineState, inputs.draw)
    {
      var prev := machineState;
      match prev {
        case StartState => TickInitialize(info, inputs);
        case Initialized => TickReportSteady(info, inputs);
        case ReportedSteady => TickCheckUpdates(info, inputs);
        case NoNewUpdate => TickCheckUpdates(info, inputs);
        case UpdateAvailable(release, _) => var _ := TickStageUpdate(info, inputs, release);
        case UpdateStaged(release, _) => var _, _ := TickFinalizeUpdate(info, inputs, release);
        case UpdateFinalized(_) => End();
        case EndState =>
      }
      changed := !SameVariant(prev, machineState);
      pause := RefreshDelay(info.steadyInterval, prev, machineState, inputs.draw);
    }
  }

  /** The delay announced to waiting sessions: at the first and at the last postponement only. */
  function Announcement(machine: MachineState, permitted: bool): Option<uint64> {
    if permitted || !machine.UpdateStaged? then None
    else if machine.postponements == MAX_FINALIZE_POSTPONEMENTS then Some(600)
    else if machine.postponements == 1 then Some(60)
    else None
  }
}
