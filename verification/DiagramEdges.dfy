/** The documented state diagram has no edge too many (docs/images/zincati-fsm.dot). */
module DiagramEdges {
  import opened Wrappers
  import opened Releases
  import opened ReleaseSets
  import opened UpdateAgent
  import opened AgentRuns
  import opened AgentTiming
  import opened Counterexamples

  ghost predicate Reachable(info: Info, s: AgentState) {
    exists ticks :: StepMany(info, INITIAL_STATE, ticks) == s
  }

  lemma StartIsReachable(info: Info)
    ensures Reachable(info, INITIAL_STATE)
  {
    assert StepMany(info, INITIAL_STATE, []) == INITIAL_STATE;
  }

  lemma ReachableStep(info: Info, s: AgentState, inputs: Inputs)
    requires Reachable(info, s)
    ensures Reachable(info, Step(info, s, inputs))
  {
    hide Step;
    var ticks :| StepMany(info, INITIAL_STATE, ticks) == s;
    assert (ticks + [inputs])[..|ticks|] == ticks;
    assert StepMany(info, INITIAL_STATE, ticks + [inputs]) == Step(info, s, inputs);
  }

  /** Answers with which an update is found, staged on the right stream, and finalized. */
  ghost predicate GoesWell(info: Info, inputs: Inputs, r: Release) {
    && info.enabled && (info.strategy.Immediate? || (info.strategy.FleetLock? && inputs.lockReply.IsSuccess()))
    && inputs.localDeployments == None
    && UpdateHint(info, [], inputs.graph) == Some(r)
    && StageOutcome(info, inputs, r) == Ok(true)
    && inputs.sessions == Some(0) && !inputs.overridden
    && inputs.finalized
  }

  /** The state of the machine after `n` such ticks. */
  function Smooth(r: Release, n: nat): MachineState {
    match n
    case 0 => StartState
    case 1 => Initialized
    case 2 => ReportedSteady
    case 3 => UpdateAvailable(r, 0)
    case 4 => UpdateStaged(r, MAX_FINALIZE_POSTPONEMENTS)
    case 5 => UpdateFinalized(r)
    case _ => EndState
  }

  lemma SmoothStep(info: Info, inputs: Inputs, r: Release, n: nat)
    requires GoesWell(info, inputs, r)
    ensures Step(info, AgentState(Smooth(r, n), []), inputs) == AgentState(Smooth(r, n + 1), [])
  {
    hide UpdateHint, StageOutcome;
  }

  lemma {:induction false} SmoothIsReachable(info: Info, inputs: Inputs, r: Release, n: nat)
    requires GoesWell(info, inputs, r)
    ensures Reachable(info, AgentState(Smooth(r, n), []))
  {
    hide Step, Reachable, GoesWell;
    if n == 0 {
      StartIsReachable(info);
    } else {
      SmoothIsReachable(info, inputs, r, n - 1);
      SmoothStep(info, inputs, r, n - 1);
      hide Smooth;
      ReachableStep(info, AgentState(Smooth(r, n - 1), []), inputs);
    }
  }

  lemma SomethingGoesWell()
    ensures GoesWell(
              AGENT, ANSWERS.(localDeployments := None, pending := Ok(Some((TARGET.(ageIndex := None), "stable")))), TARGET)
  {
    HintIsTarget([]);
    hide UpdateHint, GRAPH;
  }

  /** How many smooth ticks lead to a variant; to no update, one more that finds nothing. */
  function Distance(v: Variant): nat {
    match v
    case SStart => 0
    case SInitialized => 1
    case SSteady => 2
    case SNoUpdate => 2
    case SAvailable => 3
    case SStaged => 4
    case SFinalized => 5
    case SEnd => 6
  }

  /** The answers for the tick that follows an edge to a variant; a longer text is another stream. */
  function Diverted(info: Info, smooth: Inputs, r: Release, to: Variant): Inputs {
    match to
    case SNoUpdate => smooth.(graph := None, pending := Ok(Some((r.(ageIndex := None), info.stream + "-"))))
    case SAvailable => smooth.(deployed := false)
    case SStaged => smooth.(sessions := Some(1))
    case _ => smooth
  }

  lemma NothingFetched(info: Info)
    ensures UpdateHint(info, [], None) == None
  {
  }

  /** Deploying can fail, or give a deployment from the wrong stream; sessions have no part in it. */
  lemma DivertedStaging(info: Info, smooth: Inputs, r: Release)
    requires GoesWell(info, smooth, r)
    ensures StageOutcome(info, Diverted(info, smooth, r, SNoUpdate), r) == Ok(false)
    ensures StageOutcome(info, Diverted(info, smooth, r, SAvailable), r) == Err(())
    ensures StageOutcome(info, Diverted(info, smooth, r, SStaged), r) == Ok(true)
  {
    hide UpdateHint;
    assert |info.stream + "-"| == |info.stream| + 1;
  }

  lemma DivertedStep(info: Info, smooth: Inputs, r: Release, from: Variant, to: Variant)
    requires GoesWell(info, smooth, r)
    requires (from, to) in DIAGRAM && from != SNoUpdate && (from, to) != (SStart, SEnd)
    ensures var s := AgentState(Smooth(r, Distance(from)), []);
            VariantOf(s.machine) == from && VariantOf(Step(info, s, Diverted(info, smooth, r, to)).machine) == to
  {
    hide UpdateHint, StageOutcome, Insert, Ascending;
    match from
    case SAvailable => DivertedStaging(info, smooth, r);
    case SSteady => NothingFetched(info);
    case _ =>
  }

  lemma IdleSteps(info: Info, smooth: Inputs, r: Release)
    requires GoesWell(info, smooth, r)
    ensures var idle := AgentState(NoNewUpdate, []);
            && Step(info, AgentState(ReportedSteady, []), smooth.(graph := None)) == idle
            && Step(info, idle, smooth.(graph := None)) == idle
            && Step(info, idle, smooth).machine == UpdateAvailable(r, 0)
  {
    NothingFetched(info);
    hide UpdateHint;
  }

  ghost predicate Follows(info: Info, s: AgentState, inputs: Inputs, from: Variant, to: Variant) {
    Reachable(info, s) && VariantOf(s.machine) == from && VariantOf(Step(info, s, inputs).machine) == to
  }

  lemma DisabledEdge(info: Info, inputs: Inputs)
    requires !info.enabled
    ensures Follows(info, INITIAL_STATE, inputs, SStart, SEnd)
  {
    StartIsReachable(info);
    hide Reachable;
  }

  lemma IdleIsReachable(info: Info, smooth: Inputs, r: Release)
    requires GoesWell(info, smooth, r)
    ensures Reachable(info, AgentState(NoNewUpdate, []))
  {
    SmoothIsReachable(info, smooth, r, 2);
    IdleSteps(info, smooth, r);
    assert Smooth(r, 2) == ReportedSteady;
    hide Reachable, GoesWell, Step, Smooth;
    ReachableStep(info, AgentState(ReportedSteady, []), smooth.(graph := None));
  }

  lemma IdleEdge(info: Info, smooth: Inputs, r: Release, to: Variant)
    requires GoesWell(info, smooth, r) && (SNoUpdate, to) in DIAGRAM
    ensures var inputs := if to == SNoUpdate then smooth.(graph := None) else smooth;
            Follows(info, AgentState(NoNewUpdate, []), inputs, SNoUpdate, to)
  {
    hide Reachable, GoesWell, Step;
    IdleIsReachable(info, smooth, r);
    IdleSteps(info, smooth, r);
  }

  lemma SmoothEdge(info: Info, smooth: Inputs, r: Release, from: Variant, to: Variant)
    requires GoesWell(info, smooth, r)
    requires (from, to) in DIAGRAM && from != SNoUpdate && (from, to) != (SStart, SEnd)
    ensures Follows(info, AgentState(Smooth(r, Distance(from)), []), Diverted(info, smooth, r, to), from, to)
  {
    hide Reachable, GoesWell, Smooth, Diverted, Distance, Step;
    SmoothIsReachable(info, smooth, r, Distance(from));
    DivertedStep(info, smooth, r, from, to);
  }

  /** Every edge of the diagram is followed by some tick of some agent from a reachable state. */
  lemma EveryEdgeIsFollowed(from: Variant, to: Variant) returns (info: Info, s: AgentState, inputs: Inputs)
    requires (from, to) in DIAGRAM
    ensures Follows(info, s, inputs, from, to)
  {
    SomethingGoesWell();
    var smooth := ANSWERS.(localDeployments := None, pending := Ok(Some((TARGET.(ageIndex := None), "stable"))));
    hide AGENT, ANSWERS, TARGET, GoesWell, Follows, DIAGRAM, Smooth, Distance, Diverted;
    if (from, to) == (SStart, SEnd) {
      info, s, inputs := AGENT.(enabled := false), INITIAL_STATE, smooth;
      DisabledEdge(info, inputs);
    } else if from == SNoUpdate {
      info, s, inputs := AGENT, AgentState(NoNewUpdate, []), if to == SNoUpdate then smooth.(graph := None) else smooth;
      IdleEdge(info, smooth, TARGET, to);
    } else {
      info, s, inputs := AGENT, AgentState(Smooth(TARGET, Distance(from)), []), Diverted(AGENT, smooth, TARGET, to);
      SmoothEdge(info, smooth, TARGET, from, to);
    }
  }
}
