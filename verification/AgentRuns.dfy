/** What holds over whole runs of one agent, whatever the world answers. */
module AgentRuns {
  import opened Wrappers
  import opened Releases
  import opened ReleaseSets
  import opened UpdateGraph
  import opened UpdateSelection
  import opened Strategy
  import opened UpdateAgent

  /** The states before and after each tick, with what each tick learned. */
  datatype Run = Run(states: seq<AgentState>, inputs: seq<Inputs>) {
    ghost predicate Valid(info: Info) {
      && |states| == |inputs| + 1
      && states[0] == INITIAL_STATE
      && forall i | 0 <= i < |inputs| :: TickAt(info, i)
    }

    ghost predicate TickAt(info: Info, i: nat)
      requires i < |inputs| && |states| == |inputs| + 1
    {
      states[i + 1] == Step(info, states[i], inputs[i])
    }
  }

  /** The update that a state is concerned with, if any. */
  function Target(machine: MachineState): Option<Release> {
    match machine
    case UpdateAvailable(release, _) => Some(release)
    case UpdateStaged(release, _) => Some(release)
    case UpdateFinalized(release) => Some(release)
    case _ => None
  }

  /** What every reachable state satisfies: counters within bounds, and no target that is denylisted. */
  ghost predicate Sound(s: AgentState) {
    && (s.machine.UpdateAvailable? ==> s.machine.failures < MAX_DEPLOY_ATTEMPTS)
    && (s.machine.UpdateStaged? ==> s.machine.postponements <= MAX_FINALIZE_POSTPONEMENTS)
    && (s.machine.StartState? ==> s.denylist == [])
    && (Target(s.machine).Some? ==> Target(s.machine).value.payload !in Payloads(s.denylist))
  }

  lemma HintIsSelected(info: Info, denylist: ReleaseSet, graph: Option<Graph>)
    requires UpdateHint(info, denylist, graph).Some?
    ensures graph.Some?
    ensures Select(Reader(info.parse), graph.value, info.currentOs, denylist, info.allowDowngrade) ==
            Ok(UpdateHint(info, denylist, graph))
    ensures UpdateHint(info, denylist, graph).value.payload !in Payloads(denylist)
  {
    SelectedIsNotDenylisted(
      Reader(info.parse), graph.value, info.currentOs, denylist, info.allowDowngrade,
      UpdateHint(info, denylist, graph).value);
  }

  /** One tick keeps a state sound. */
  lemma StepIsSound(info: Info, s: AgentState, inputs: Inputs)
    requires Sound(s)
    ensures Sound(Step(info, s, inputs))
  {
    hide Select, Insert, CanFinalize, ReportSteady;
    if (s.machine.ReportedSteady? || s.machine.NoNewUpdate?) && UpdateHint(info, s.denylist, inputs.graph).Some? {
      HintIsSelected(info, s.denylist, inputs.graph);
    }
  }

  lemma {:induction false} RunIsSound(info: Info, run: Run, k: nat)
    requires run.Valid(info) && k < |run.states|
    ensures Sound(run.states[k])
  {
    if k > 0 {
      RunIsSound(info, run, k - 1);
      assert run.TickAt(info, k - 1);
      StepIsSound(info, run.states[k - 1], run.inputs[k - 1]);
    }
  }

  // ---------- The documented diagram ----------

  datatype Variant = SStart | SInitialized | SSteady | SNoUpdate | SAvailable | SStaged | SFinalized | SEnd

  function VariantOf(machine: MachineState): Variant {
    match machine
    case StartState => SStart
    case Initialized => SInitialized
    case ReportedSteady => SSteady
    case NoNewUpdate => SNoUpdate
    case UpdateAvailable(_, _) => SAvailable
    case UpdateStaged(_, _) => SStaged
    case UpdateFinalized(_) => SFinalized
    case EndState => SEnd
  }

  /** The edges of the documented state diagram. */
  const DIAGRAM: set<(Variant, Variant)> := {
    (SStart, SInitialized), (SStart, SEnd),
    (SInitialized, SSteady),
    (SSteady, SNoUpdate), (SSteady, SAvailable),
    (SNoUpdate, SNoUpdate), (SNoUpdate, SAvailable),
    (SAvailable, SAvailable), (SAvailable, SNoUpdate), (SAvailable, SStaged),
    (SStaged, SFinalized), (SStaged, SStaged),
    (SFinalized, SEnd)
  }

  /** Every tick from every state follows an edge of the diagram, or changes nothing at all. */
  lemma TickFollowsDiagram(info: Info, s: AgentState, inputs: Inputs)
    ensures var t := Step(info, s, inputs);
            (VariantOf(s.machine), VariantOf(t.machine)) in DIAGRAM
            || (t == s && (s.machine == Initialized || s.machine == EndState))
  {
    hide Select, Insert, CanFinalize, ReportSteady;
  }

  /** An agent that is disabled is done after its first tick: it never looks for updates. */
  lemma {:induction false} DisabledAgentEnds(info: Info, run: Run, k: nat)
    requires run.Valid(info) && !info.enabled && 1 <= k < |run.states|
    ensures run.states[k].machine == EndState
    ensures run.states[k].denylist == run.states[1].denylist
  {
    assert run.TickAt(info, k - 1);
    if k > 1 {
      DisabledAgentEnds(info, run, k - 1);
    }
  }

  // ---------- Where a finalized release comes from ----------

  /** A tick from `s` checks for updates and the graph it fetched gives `r`. */
  ghost predicate Selects(info: Info, s: AgentState, inputs: Inputs, r: Release) {
    && (s.machine == ReportedSteady || s.machine == NoNewUpdate)
    && inputs.graph.Some?
    && Select(Reader(info.parse), inputs.graph.value, info.currentOs, s.denylist, info.allowDowngrade) == Ok(Some(r))
  }

  ghost predicate SelectedAt(info: Info, run: Run, i: nat, r: Release) {
    i < |run.inputs| && i < |run.states| && Selects(info, run.states[i], run.inputs[i], r)
  }

  /** Tick `j` deploys `r` and finds it pending, same version and payload, on the identity's stream. */
  ghost predicate ConfirmedAt(info: Info, run: Run, j: nat, r: Release) {
    && j < |run.inputs|
    && run.inputs[j].deployed
    && run.inputs[j].pending.Ok? && run.inputs[j].pending.value.Some?
    && var (deployment, stream) := run.inputs[j].pending.value.value;
       deployment.version == r.version && deployment.payload == r.payload && stream == info.stream
  }

  ghost predicate AvailableDuring(run: Run, lo: nat, hi: nat, r: Release)
    requires hi < |run.states|
  {
    forall m | lo <= m <= hi :: run.states[m].machine.UpdateAvailable? && run.states[m].machine.release == r
  }

  ghost predicate StagedDuring(run: Run, lo: nat, hi: nat, r: Release)
    requires hi < |run.states|
  {
    forall m | lo <= m <= hi :: run.states[m].machine.UpdateStaged? && run.states[m].machine.release == r
  }

  ghost predicate SameDenylist(run: Run, lo: nat, hi: nat)
    requires lo <= hi < |run.states|
  {
    forall m | lo <= m <= hi :: run.states[m].denylist == run.states[lo].denylist
  }

  /** `r` was selected at tick `i` and has been the available update since, up to state `k`. */
  ghost predicate Awaiting(info: Info, run: Run, i: nat, k: nat, r: Release) {
    && i < k < |run.states|
    && SelectedAt(info, run, i, r)
    && AvailableDuring(run, i + 1, k, r)
    && SameDenylist(run, i, k)
  }

  /** `r` was selected at tick `i`, confirmed at tick `j`, and has been the staged update since, up to state `k`. */
  ghost predicate Staged(info: Info, run: Run, i: nat, j: nat, k: nat, r: Release) {
    && Awaiting(info, run, i, j, r)
    && j < k < |run.states|
    && ConfirmedAt(info, run, j, r)
    && StagedDuring(run, j + 1, k, r)
    && SameDenylist(run, i, k)
  }

  /** How a tick comes to hold an available update. */
  lemma AvailableAfterStep(info: Info, s: AgentState, inputs: Inputs)
    requires Step(info, s, inputs).machine.UpdateAvailable?
    ensures var t := Step(info, s, inputs);
            && t.denylist == s.denylist
            && (s.machine == ReportedSteady || s.machine == NoNewUpdate
                || (s.machine.UpdateAvailable? && s.machine.release == t.machine.release))
            && (!s.machine.UpdateAvailable? ==> t.machine.failures == 0 && Selects(info, s, inputs, t.machine.release))
            && (s.machine.UpdateAvailable? ==>
                  && StageOutcome(info, inputs, s.machine.release).Err?
                  && t.machine.failures == SaturatingAdd(s.machine.failures, 1, U8_MAX) < MAX_DEPLOY_ATTEMPTS)
  {
  }

  /** How a tick comes to hold a staged update. */
  lemma StagedAfterStep(info: Info, s: AgentState, inputs: Inputs)
    requires Step(info, s, inputs).machine.UpdateStaged?
    ensures var t := Step(info, s, inputs);
            && t.denylist == s.denylist
            && (s.machine.UpdateAvailable? || s.machine.UpdateStaged?)
            && s.machine.release == t.machine.release
            && (s.machine.UpdateAvailable? ==> StageOutcome(info, inputs, s.machine.release) == Ok(true))
  {
    hide Select, Insert, CanFinalize, ReportSteady, OnCorrectStream;
  }

  lemma AwaitingBegins(info: Info, run: Run, i: nat, r: Release)
    requires SelectedAt(info, run, i, r) && i + 1 < |run.states|
    requires run.states[i + 1].machine == UpdateAvailable(r, 0) && run.states[i + 1].denylist == run.states[i].denylist
    ensures Awaiting(info, run, i, i + 1, r)
  {
    hide Selects;
  }

  lemma AwaitingGoesOn(info: Info, run: Run, i: nat, k: nat, r: Release)
    requires Awaiting(info, run, i, k, r) && k + 1 < |run.states|
    requires run.states[k + 1].machine.UpdateAvailable? && run.states[k + 1].machine.release == r
    requires run.states[k + 1].denylist == run.states[k].denylist
    ensures Awaiting(info, run, i, k + 1, r)
  {
    hide Selects;
  }

  lemma {:induction false} AvailableOrigin(info: Info, run: Run, k: nat) returns (i: nat)
    requires run.Valid(info) && k < |run.states| && run.states[k].machine.UpdateAvailable?
    ensures Awaiting(info, run, i, k, run.states[k].machine.release)
  {
    hide Step, StageOutcome, Selects, Awaiting;
    assert run.TickAt(info, k - 1);
    var r := run.states[k].machine.release;
    AvailableAfterStep(info, run.states[k - 1], run.inputs[k - 1]);
    if run.states[k - 1].machine.UpdateAvailable? {
      i := AvailableOrigin(info, run, k - 1);
      AwaitingGoesOn(info, run, i, k - 1, r);
    } else {
      i := k - 1;
      assert SelectedAt(info, run, i, r);
      AwaitingBegins(info, run, i, r);
    }
  }

  lemma {:induction false} StagedOrigin(info: Info, run: Run, k: nat) returns (i: nat, j: nat)
    requires run.Valid(info) && k < |run.states| && run.states[k].machine.UpdateStaged?
    ensures Staged(info, run, i, j, k, run.states[k].machine.release)
  {
    assert run.TickAt(info, k - 1);
    hide Step, Selects;
    StagedAfterStep(info, run.states[k - 1], run.inputs[k - 1]);
    if run.states[k - 1].machine.UpdateAvailable? {
      j := k - 1;
      i := AvailableOrigin(info, run, k - 1);
    } else {
      i, j := StagedOrigin(info, run, k - 1);
    }
  }

  /** When finalization is issued: both ways, so consent that is there is also used. */
  lemma IssuedExactly(info: Info, s: AgentState, inputs: Inputs)
    ensures IssuesFinalize(info, s, inputs) <==>
            && s.machine.UpdateStaged?
            && (match info.strategy
                case FleetLock => inputs.lockReply.IsSuccess()
                case Immediate => true
                case PeriodicSchedule(schedule) => schedule.ContainsMinute(inputs.minute))
            && (inputs.sessions == None || inputs.sessions == Some(0) || inputs.overridden || s.machine.postponements == 0)
    ensures Step(info, s, inputs).machine.UpdateFinalized? <==> IssuesFinalize(info, s, inputs) && inputs.finalized
  {
    hide Select, Insert;
  }

  /**
   * Finalize safety. Whenever a tick of a run finalizes `r`: `r` was selected from a
   * fetched graph, deployed and confirmed on the right stream, kept as the staged update
   * ever since, its payload is not denylisted, and in this very tick the strategy consents
   * and the sessions are absent, overridden, or out of postponements.
   */
  lemma FinalizeIsSafe(info: Info, run: Run, k: nat)
    requires run.Valid(info) && k < |run.inputs| && IssuesFinalize(info, run.states[k], run.inputs[k])
    ensures var r := run.states[k].machine.release;
            && (exists i, j :: Staged(info, run, i, j, k, r))
            && r.payload !in Payloads(run.states[k].denylist)
            && (match info.strategy
                case FleetLock => run.inputs[k].lockReply.IsSuccess()
                case Immediate => true
                case PeriodicSchedule(schedule) => schedule.ContainsMinute(run.inputs[k].minute))
            && (run.inputs[k].sessions.None? || run.inputs[k].sessions == Some(0) || run.inputs[k].overridden
                || run.states[k].machine.postponements == 0)
  {
    hide Step, Selects;
    var i, j := StagedOrigin(info, run, k);
    RunIsSound(info, run, k);
  }

  /** Only a finalization that was issued and succeeded leads to the finalized state. */
  lemma FinalizedWasIssued(info: Info, run: Run, k: nat)
    requires run.Valid(info) && 0 < k < |run.states| && run.states[k].machine.UpdateFinalized?
    ensures IssuesFinalize(info, run.states[k - 1], run.inputs[k - 1]) && run.inputs[k - 1].finalized
    ensures run.states[k - 1].machine.release == run.states[k].machine.release
  {
    hide Select, Insert, CanFinalize, ReportSteady;
    assert run.TickAt(info, k - 1);
  }

  // ---------- The denylist ----------

  lemma StepGrowsDenylist(info: Info, s: AgentState, inputs: Inputs, r: Release)
    requires !s.machine.StartState? && r in s.denylist
    ensures r in Step(info, s, inputs).denylist
    ensures !Step(info, s, inputs).machine.StartState?
  {
    hide Select, CanFinalize, ReportSteady, Cmp;
  }

  /** After initialization nothing leaves the denylist. */
  lemma {:induction false} DenylistGrows(info: Info, run: Run, a: nat, b: nat, r: Release)
    requires run.Valid(info) && 1 <= a <= b < |run.states| && r in run.states[a].denylist
    ensures r in run.states[b].denylist
    decreases b
  {
    if a < b {
      DenylistGrows(info, run, a, b - 1, r);
      Started(info, run, b - 1);
      assert run.TickAt(info, b - 1);
      StepGrowsDenylist(info, run.states[b - 1], run.inputs[b - 1], r);
    }
  }

  lemma {:induction false} Started(info: Info, run: Run, k: nat)
    requires run.Valid(info) && 1 <= k < |run.states|
    ensures !run.states[k].machine.StartState?
  {
    assert run.TickAt(info, k - 1);
    TickFollowsDiagram(info, run.states[k - 1], run.inputs[k - 1]);
  }

  /**
   * A payload once denylisted is never again the target of the agent: not selected, not
   * staged, not finalized, for the rest of the process.
   */
  lemma BlockedForever(info: Info, run: Run, a: nat, b: nat, p: Payload)
    requires run.Valid(info) && 1 <= a <= b < |run.states| && p in Payloads(run.states[a].denylist)
    ensures Target(run.states[b].machine).Some? ==> Target(run.states[b].machine).value.payload != p
  {
    var r :| r in run.states[a].denylist && r.payload == p;
    DenylistGrows(info, run, a, b, r);
    RunIsSound(info, run, b);
  }

  /** The local deployments successfully queried at the start are denylisted. */
  lemma InitialDeploymentsBlocked(info: Info, run: Run, b: nat, r: Release)
    requires run.Valid(info) && 1 <= b < |run.states|
    requires run.inputs[0].localDeployments.Some? && r in run.inputs[0].localDeployments.value
    ensures Target(run.states[b].machine).Some? ==> Target(run.states[b].machine).value.payload != r.payload
  {
    assert run.TickAt(info, 0);
    assert r in run.states[1].denylist;
    BlockedForever(info, run, 1, b, r.payload);
  }

  /** Tick `k` abandons its update for being on the wrong stream. */
  ghost predicate WrongStreamAt(info: Info, s: AgentState, inputs: Inputs) {
    s.machine.UpdateAvailable? && StageOutcome(info, inputs, s.machine.release) == Ok(false)
  }

  /** Abandoning for the wrong stream blocks the payload exactly when no denylisted release compares equal. */
  lemma WrongStreamBlocksExactly(info: Info, s: AgentState, inputs: Inputs)
    requires Sound(s) && WrongStreamAt(info, s, inputs)
    ensures var r := s.machine.release;
            r.payload in Payloads(Step(info, s, inputs).denylist) <==> !Has(s.denylist, r)
  {
    InsertExactly(s.denylist, s.machine.release);
  }
}
