/** Ticks that follow at once: how many there can be, and the one way they never end. */
module BusyLoop {
  import opened Wrappers
  import opened FiniteSets
  import opened Releases
  import opened ReleaseSets
  import opened UpdateGraph
  import opened UpdateSelection
  import opened Strategy
  import opened UpdateAgent
  import opened AgentRuns
  import opened AgentTiming

  /** All the payloads that a tick may bring up are in `universe`. */
  ghost predicate Within(info: Info, inputs: Inputs, universe: set<Payload>) {
    && (inputs.localDeployments.Some? ==> Payloads(inputs.localDeployments.value) <= universe)
    && (inputs.graph.Some? ==>
          forall r :: InGraph(Reader(info.parse), inputs.graph.value, r) ==> r.payload in universe)
  }

  /** A sound state whose payloads are all in `universe`. */
  ghost predicate Confined(s: AgentState, universe: set<Payload>) {
    && Sound(s)
    && Payloads(s.denylist) <= universe
    && (Target(s.machine).Some? ==> Target(s.machine).value.payload in universe)
  }

  lemma StepIsConfined(info: Info, s: AgentState, inputs: Inputs, universe: set<Payload>)
    requires Confined(s, universe) && Within(info, inputs, universe)
    ensures Confined(Step(info, s, inputs), universe)
  {
    StepIsSound(info, s, inputs);
    hide Select, CanFinalize, ReportSteady, Cmp, InGraph;
    if (s.machine.ReportedSteady? || s.machine.NoNewUpdate?) && UpdateHint(info, s.denylist, inputs.graph).Some? {
      HintIsSelected(info, s.denylist, inputs.graph);
      SelectedIsNotDenylisted(
        Reader(info.parse), inputs.graph.value, info.currentOs, s.denylist, info.allowDowngrade,
        UpdateHint(info, s.denylist, inputs.graph).value);
    }
  }

  /** How far a state is from the end along ticks that follow at once. */
  function Rank(machine: MachineState): nat {
    match machine
    case StartState => 8
    case Initialized => 7
    case ReportedSteady => 6
    case NoNewUpdate => 4
    case UpdateAvailable(_, failures) => if failures + 1 >= MAX_DEPLOY_ATTEMPTS then 5 else 3
    case UpdateStaged(_, _) => 2
    case UpdateFinalized(_) => 1
    case EndState => 0
  }

  /** Payloads that may still be offered and are not denylisted. */
  ghost function Offerable(s: AgentState, universe: set<Payload>): set<Payload> {
    universe - Payloads(s.denylist)
  }

  /** The measure: two for every payload that may still be offered, and the rank of the state. */
  ghost function Potential(s: AgentState, universe: set<Payload>): nat {
    Rank(s.machine) + 2 * |Offerable(s, universe)|
  }

  /** The tick is followed at once, without a pause. */
  predicate Immediate(info: Info, s: AgentState, inputs: Inputs) {
    PauseAfter(info, s, inputs).None?
  }

  /** If the tick abandons its update for the wrong stream, no denylisted release compares equal to that update. */
  ghost predicate AbandonBlocks(info: Info, s: AgentState, inputs: Inputs) {
    WrongStreamAt(info, s, inputs) ==> !Has(s.denylist, s.machine.release)
  }

  lemma InsertOffersLess(s: AgentState, r: Release, universe: set<Payload>)
    requires r.payload in universe && r.payload !in Payloads(s.denylist) && !Has(s.denylist, r)
    ensures |universe - Payloads(Insert(s.denylist, r))| < |Offerable(s, universe)|
  {
    InsertExactly(s.denylist, r);
    assert r.payload in Payloads(Insert(s.denylist, r));
    ProperSubsetSize(universe - Payloads(Insert(s.denylist, r)), Offerable(s, universe), r.payload);
  }

  lemma OffersNoMore(info: Info, s: AgentState, inputs: Inputs, universe: set<Payload>)
    requires Sound(s)
    ensures |Offerable(Step(info, s, inputs), universe)| <= |Offerable(s, universe)|
  {
    hide Select, CanFinalize, ReportSteady, Cmp;
    var t := Step(info, s, inputs);
    assert Payloads(s.denylist) <= Payloads(t.denylist);
    SubsetSize(Offerable(t, universe), Offerable(s, universe));
  }

  /** A tick that follows at once lowers the rank, except after abandoning for the wrong stream. */
  lemma RankChange(info: Info, s: AgentState, inputs: Inputs)
    requires Sound(s)
    ensures var t := Step(info, s, inputs);
            if Immediate(info, s, inputs) then
              Rank(t.machine) < Rank(s.machine) || (WrongStreamAt(info, s, inputs) && Rank(t.machine) <= Rank(s.machine) + 1)
            else Rank(t.machine) <= Rank(s.machine) + 2
  {
    FollowedAtOnceExactly(info, s, inputs);
    hide Select, CanFinalize, ReportSteady, Cmp, Insert, Payloads, Ascending, PauseAfter;
  }

  lemma WrongStreamOffersLess(info: Info, s: AgentState, inputs: Inputs, universe: set<Payload>)
    requires Confined(s, universe) && AbandonBlocks(info, s, inputs) && WrongStreamAt(info, s, inputs)
    ensures |Offerable(Step(info, s, inputs), universe)| < |Offerable(s, universe)|
  {
    hide Cmp, Insert, Ascending, OnCorrectStream;
    InsertOffersLess(s, s.machine.release, universe);
  }

  /** A tick that follows at once lowers the measure; any other raises it by two at most. */
  lemma PotentialChange(info: Info, s: AgentState, inputs: Inputs, universe: set<Payload>)
    requires Confined(s, universe) && AbandonBlocks(info, s, inputs)
    ensures var t := Step(info, s, inputs);
            if Immediate(info, s, inputs) then Potential(t, universe) < Potential(s, universe)
            else Potential(t, universe) <= Potential(s, universe) + 2
  {
    RankChange(info, s, inputs);
    OffersNoMore(info, s, inputs, universe);
    hide Step, Rank, Immediate, WrongStreamAt, AbandonBlocks, Offerable, Sound, Payloads;
    if WrongStreamAt(info, s, inputs) {
      WrongStreamOffersLess(info, s, inputs, universe);
    }
  }

  function ImmediateTicks(info: Info, s: AgentState, ticks: seq<Inputs>): nat {
    if ticks == [] then 0
    else
      var before := ticks[..|ticks| - 1];
      ImmediateTicks(info, s, before)
      + if Immediate(info, StepMany(info, s, before), ticks[|ticks| - 1]) then 1 else 0
  }

  /** Every tick satisfies `AbandonBlocks`. */
  ghost predicate AllAbandonsBlock(info: Info, s: AgentState, ticks: seq<Inputs>) {
    ticks != [] ==>
      var before := ticks[..|ticks| - 1];
      AllAbandonsBlock(info, s, before) && AbandonBlocks(info, StepMany(info, s, before), ticks[|ticks| - 1])
  }

  lemma {:induction false} PotentialOverRun(info: Info, s: AgentState, ticks: seq<Inputs>, universe: set<Payload>)
    requires Confined(s, universe) && AllAbandonsBlock(info, s, ticks)
    requires forall t | t in ticks :: Within(info, t, universe)
    ensures Confined(StepMany(info, s, ticks), universe)
    ensures ImmediateTicks(info, s, ticks) <= |ticks|
    ensures ImmediateTicks(info, s, ticks) + Potential(StepMany(info, s, ticks), universe) <=
            Potential(s, universe) + 2 * (|ticks| - ImmediateTicks(info, s, ticks))
  {
    hide Step, Confined, Within, Potential, Immediate, AbandonBlocks;
    if ticks != [] {
      var last := |ticks| - 1;
      assert ticks == ticks[..last] + [ticks[last]];
      PotentialOverRun(info, s, ticks[..last], universe);
      var before := StepMany(info, s, ticks[..last]);
      StepIsConfined(info, before, ticks[last], universe);
      PotentialChange(info, before, ticks[last], universe);
    }
  }

  /** When no two payloads share a text, every abandoned update is blocked. */
  lemma {:induction false} InjectiveTextsBlock(info: Info, s: AgentState, ticks: seq<Inputs>, universe: set<Payload>)
    requires Confined(s, universe) && TextInjective(universe)
    requires forall t | t in ticks :: Within(info, t, universe)
    ensures AllAbandonsBlock(info, s, ticks)
    ensures Confined(StepMany(info, s, ticks), universe)
  {
    if ticks != [] {
      var last := |ticks| - 1;
      assert ticks == ticks[..last] + [ticks[last]];
      InjectiveTextsBlock(info, s, ticks[..last], universe);
      var before := StepMany(info, s, ticks[..last]);
      hide Step, Within;
      StepIsConfined(info, before, ticks[last], universe);
      DistinctTextsBlock(info, before, ticks[last], universe);
    }
  }

  lemma DistinctTextsBlock(info: Info, s: AgentState, inputs: Inputs, universe: set<Payload>)
    requires Confined(s, universe) && TextInjective(universe)
    ensures AbandonBlocks(info, s, inputs)
  {
    if s.machine.UpdateAvailable? && Has(s.denylist, s.machine.release) {
      var r := s.machine.release;
      var x :| x in s.denylist && Cmp(x, r) == Equal;
      CmpEqualExactly(x, r);
      assert x.payload in Payloads(s.denylist);
    }
  }

  /**
   * No busy loop. If the payloads that are ever offered or deployed come from a finite set,
   * and every update abandoned for the wrong stream gets blocked, then over any ticks from
   * the start the ticks that follow at once are at most eight, two for every payload, and
   * two for every tick that pauses.
   */
  lemma ImmediateTicksBounded(info: Info, ticks: seq<Inputs>, universe: set<Payload>)
    requires AllAbandonsBlock(info, INITIAL_STATE, ticks)
    requires forall t | t in ticks :: Within(info, t, universe)
    ensures var immediate := ImmediateTicks(info, INITIAL_STATE, ticks);
            immediate <= 8 + 2 * |universe| + 2 * (|ticks| - immediate)
  {
    PotentialOverRun(info, INITIAL_STATE, ticks, universe);
    assert Offerable(INITIAL_STATE, universe) == universe;
  }

  /** Ticks in a row that all follow at once are at most the measure of the state they start from. */
  lemma ImmediateRunBounded(info: Info, s: AgentState, ticks: seq<Inputs>, universe: set<Payload>)
    requires Confined(s, universe) && TextInjective(universe)
    requires forall t | t in ticks :: Within(info, t, universe)
    requires ImmediateTicks(info, s, ticks) == |ticks|
    ensures |ticks| <= Potential(s, universe) <= 8 + 2 * |universe|
  {
    InjectiveTextsBlock(info, s, ticks, universe);
    PotentialOverRun(info, s, ticks, universe);
    hide AllAbandonsBlock, StepMany, Within, ImmediateTicks, Confined;
    SubsetSize(Offerable(s, universe), universe);
  }

  /**
   * When an abandoned update is not blocked the bound fails: as long as that update is
   * offered, the agent goes round two ticks that each follow at once, changing nothing.
   */
  lemma UnblockedUpdateLoops(info: Info, s: AgentState, inputs: Inputs, r: Release)
    requires s.machine == NoNewUpdate && UpdateHint(info, s.denylist, inputs.graph) == Some(r)
    requires StageOutcome(info, inputs, r) == Ok(false) && !AbandonBlocks(info, Step(info, s, inputs), inputs)
    ensures Immediate(info, s, inputs)
    ensures Immediate(info, Step(info, s, inputs), inputs)
    ensures Step(info, Step(info, s, inputs), inputs) == s
  {
    InsertExactly(s.denylist, r);
  }
}
