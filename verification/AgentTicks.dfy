/**
 * What every tick does, exactly: in terms of what it learns, branch by branch, and for
 * polling in terms of the graph (src/update_agent/actor.rs, src/update_agent/mod.rs).
 */
module AgentTicks {
  import opened Wrappers
  import opened Releases
  import opened ReleaseSets
  import opened UpdateGraph
  import opened UpdateSelection
  import opened Strategy
  import opened UpdateAgent
  import opened AgentRuns

  /** A starting agent takes over the local deployments if they can be listed, and goes on exactly if it is enabled. */
  lemma StartsExactly(info: Info, s: AgentState, inputs: Inputs)
    requires s.machine == StartState
    ensures var t := Step(info, s, inputs);
            && (t.machine == Initialized <==> info.enabled)
            && (t.machine == EndState <==> !info.enabled)
            && (match inputs.localDeployments
                case Some(deployments) => t.denylist == deployments
                case None => t.denylist == s.denylist)
  {
  }

  /** An initialized agent becomes steady exactly if its strategy has no manager, or the manager answers with 2xx. */
  lemma SteadyExactly(info: Info, s: AgentState, inputs: Inputs)
    requires s.machine == Initialized
    ensures Step(info, s, inputs) ==
            if !info.strategy.FleetLock? || (inputs.lockReply.Response? && inputs.lockReply.status / 100 == 2)
            then s.(machine := ReportedSteady) else s
  {
    ConsentExactly(info.strategy, inputs.minute, inputs.lockReply);
  }

  predicate Polls(machine: MachineState) {
    machine == ReportedSteady || machine == NoNewUpdate
  }

  /** A polling tick takes the update that the fetched graph gives, and finds nothing exactly if it gives none. */
  lemma PollsExactly(info: Info, s: AgentState, inputs: Inputs, r: Release)
    requires Polls(s.machine)
    ensures var t := Step(info, s, inputs);
            && t.denylist == s.denylist
            && (t.machine == UpdateAvailable(r, 0) <==> Selects(info, s, inputs, r))
            && (t.machine == NoNewUpdate <==> forall other :: !Selects(info, s, inputs, other))
            && (t.machine == NoNewUpdate || (t.machine.UpdateAvailable? && t.machine.failures == 0))
  {
    hide Select;
    var hint := UpdateHint(info, s.denylist, inputs.graph);
    if hint.Some? {
      HintIsSelected(info, s.denylist, inputs.graph);
      assert Selects(info, s, inputs, hint.value);
    }
  }

  /** A candidate that the agent may update to: newer than the booted node's release, unless downgrades are allowed. */
  ghost predicate IsOffered(info: Info, s: AgentState, graph: Graph, position: nat, current: Release, c: Release) {
    && IsCandidate(Reader(info.parse), graph, position, Payloads(s.denylist), c)
    && (info.allowDowngrade || Cmp(c, current) == Greater)
  }

  /** If a candidate is offered that is newer, or downgrades are allowed, the selection is the greatest candidate. */
  lemma SelectionIsGreatest(info: Info, s: AgentState, graph: Graph, position: nat, current: Release)
    requires BootedPosition(graph.nodes, info.currentOs) == Some(position)
    requires Reader(info.parse)(graph.nodes[position]) == Ok(current)
    requires !HasBadTarget(Reader(info.parse), graph, position)
    ensures var selection := Select(Reader(info.parse), graph, info.currentOs, s.denylist, info.allowDowngrade);
            && selection.Ok?
            && (selection.value.Some? <==> exists c :: IsOffered(info, s, graph, position, current, c))
            && (selection.value.Some? ==>
                  && IsOffered(info, s, graph, position, current, selection.value.value)
                  && forall c :: IsCandidate(Reader(info.parse), graph, position, Payloads(s.denylist), c) ==>
                       AtMost(c, selection.value.value))
  {
    SelectExactly(Reader(info.parse), graph, info.currentOs, s.denylist, info.allowDowngrade, position, current);
    hide Select, IsCandidate, Cmp, BootedPosition, HasBadTarget, Reader, Ascending, Payloads;
    match Select(Reader(info.parse), graph, info.currentOs, s.denylist, info.allowDowngrade)
    case Ok(Some(next)) => assert IsOffered(info, s, graph, position, current, next);
    case Ok(None) =>
      forall c ensures !IsOffered(info, s, graph, position, current, c) {
        if IsCandidate(Reader(info.parse), graph, position, Payloads(s.denylist), c) {
          assert AtMost(c, current);
        }
      }
  }

  /**
   * A polling tick in terms of the graph: if the booted node and its targets can be read,
   * the agent goes for the greatest candidate exactly when there is one that is newer, or
   * any at all when downgrades are allowed.
   */
  lemma TakesGreatest(info: Info, s: AgentState, inputs: Inputs, graph: Graph, position: nat, current: Release)
    requires Polls(s.machine) && inputs.graph == Some(graph)
    requires BootedPosition(graph.nodes, info.currentOs) == Some(position)
    requires Reader(info.parse)(graph.nodes[position]) == Ok(current)
    requires !HasBadTarget(Reader(info.parse), graph, position)
    ensures var machine := Step(info, s, inputs).machine;
            if exists c :: IsOffered(info, s, graph, position, current, c) then
              && machine.UpdateAvailable? && machine.failures == 0
              && IsOffered(info, s, graph, position, current, machine.release)
              && forall c :: IsCandidate(Reader(info.parse), graph, position, Payloads(s.denylist), c) ==>
                   AtMost(c, machine.release)
            else machine == NoNewUpdate
  {
    SelectionIsGreatest(info, s, graph, position, current);
    hide Select, IsOffered, IsCandidate, AtMost, BootedPosition, HasBadTarget, Reader, Ascending, Payloads;
  }

  /** A polling tick finds nothing when no graph is fetched, the booted deployment is not in it, or the search fails. */
  lemma FindsNothing(info: Info, s: AgentState, inputs: Inputs)
    requires Polls(s.machine)
    requires match inputs.graph
             case None => true
             case Some(graph) =>
               var position := BootedPosition(graph.nodes, info.currentOs);
               || position == None
               || Broken(info.parse, graph, position.value)
               || exists t: uint64 :: (position.value, t) in graph.edges && Broken(info.parse, graph, t)
    ensures Step(info, s, inputs) == s.(machine := NoNewUpdate)
  {
    if inputs.graph.Some? {
      var graph := inputs.graph.value;
      FindFailsExactly(info.parse, graph, info.currentOs, s.denylist, info.allowDowngrade);
      if BootedPosition(graph.nodes, info.currentOs) == None {
        NotInGraph(Reader(info.parse), graph, info.currentOs, s.denylist, info.allowDowngrade);
      }
      hide Select, Broken, BootedPosition, Reader;
    }
  }

  /** After deploying, the pending deployment is the release. */
  ghost predicate PendingIs(inputs: Inputs, release: Release) {
    && inputs.deployed && inputs.pending.Ok? && inputs.pending.value.Some?
    && inputs.pending.value.value.0.version == release.version
    && inputs.pending.value.value.0.payload == release.payload
  }

  /**
   * A staging tick: on to staged if the release is pending on the right stream, blocked if
   * it is pending on another, and otherwise one failure more, the twelfth of which abandons it.
   */
  lemma StagesExactly(info: Info, s: AgentState, inputs: Inputs)
    requires s.machine.UpdateAvailable?
    ensures var r, failures := s.machine.release, s.machine.failures;
            Step(info, s, inputs) ==
            if PendingIs(inputs, r) then
              if inputs.pending.value.value.1 == info.stream then AgentState(UpdateStaged(r, 10), s.denylist)
              else AgentState(NoNewUpdate, Insert(s.denylist, r))
            else if failures < 11 then AgentState(UpdateAvailable(r, failures + 1), s.denylist)
            else AgentState(NoNewUpdate, s.denylist)
  {
    hide Insert, Ascending;
  }

  /** Users are logged in, known to be, not overridden, and there is a postponement left for them. */
  ghost predicate Waits(inputs: Inputs, postponements: uint8) {
    inputs.sessions.Some? && inputs.sessions.value > 0 && !inputs.overridden && postponements > 0
  }

  /**
   * A finalizing tick: all postponements again without consent, one less while users are
   * waited for, finalized if that succeeds, and nothing changed if it fails.
   */
  lemma FinalizesExactly(info: Info, s: AgentState, inputs: Inputs)
    requires s.machine.UpdateStaged?
    ensures var r, p := s.machine.release, s.machine.postponements;
            Step(info, s, inputs) ==
            if !CanFinalize(info.strategy, inputs.minute, inputs.lockReply) then s.(machine := UpdateStaged(r, 10))
            else if Waits(inputs, p) then s.(machine := UpdateStaged(r, p - 1))
            else if inputs.finalized then s.(machine := UpdateFinalized(r))
            else s
    ensures IssuesFinalize(info, s, inputs) <==>
            CanFinalize(info.strategy, inputs.minute, inputs.lockReply) && !Waits(inputs, s.machine.postponements)
    ensures IssuesFinalize(info, s, inputs) && !inputs.finalized ==> Step(info, s, inputs) == s
  {
    hide CanFinalize, Ascending;
  }

  /** After finalization, or at the end, there is nothing left to do. */
  lemma EndsExactly(info: Info, s: AgentState, inputs: Inputs)
    requires s.machine.UpdateFinalized? || s.machine == EndState
    ensures Step(info, s, inputs) == s.(machine := EndState)
  {
  }
}
