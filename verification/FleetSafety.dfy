/** What holds for runs of one agent holds for every agent of a fleet. */
module FleetSafety {
  import opened ReleaseSets
  import opened UpdateAgent
  import opened AgentRuns
  import opened Fleet

  /** The run ends in the state. */
  ghost predicate LeadsTo(info: Info, run: Run, s: AgentState) {
    run.Valid(info) && run.states[|run.inputs|] == s
  }

  /** The run with one more tick. */
  function Extended(info: Info, run: Run, inputs: Inputs): Run
    requires run.states != []
  {
    Run(run.states + [Step(info, run.states[|run.states| - 1], inputs)], run.inputs + [inputs])
  }

  lemma ExtendedIsValid(info: Info, run: Run, inputs: Inputs)
    requires run.Valid(info)
    ensures Extended(info, run, inputs).Valid(info)
  {
    hide Step;
    var longer := Extended(info, run, inputs);
    forall i | 0 <= i < |longer.inputs| ensures longer.TickAt(info, i) {
      if i < |run.inputs| { assert run.TickAt(info, i); }
    }
  }

  /** What the ticks learned that an agent has completed since it last started, up to state `k`. */
  ghost function CompletedTicks(states: seq<Fleet>, actions: seq<Action>, k: nat, id: NodeId): seq<Inputs>
    requires IsExecution(states, actions) && k < |states|
  {
    if k == 0 then []
    else
      assert ActsAt(states, actions, k - 1);
      var before := CompletedTicks(states, actions, k - 1, id);
      var a := actions[k - 1];
      if a.id != id then before
      else if a.Restart? then []
      else
        match TickEnded(states[k - 1], a)
        case Some(inputs) => before + [inputs]
        case None => before
  }

  /**
   * Every agent's state, at any point of an execution, is the end of a run of its own,
   * whose ticks are those that it has completed since it last started.
   */
  lemma {:induction false} AgentHasRun(states: seq<Fleet>, actions: seq<Action>, k: nat, id: NodeId) returns (run: Run)
    requires IsExecution(states, actions) && k < |states| && id in states[k].agents
    ensures LeadsTo(states[k].agents[id].info, run, states[k].agents[id].state)
    ensures run.inputs == CompletedTicks(states, actions, k, id)
  {
    hide Step, TickEnded;
    run := Run([INITIAL_STATE], []);
    if k > 0 {
      assert ActsAt(states, actions, k - 1);
      var f, a := states[k - 1], actions[k - 1];
      ExecutionIsAgentRun(f, a, id);
      if a.id != id || !a.Restart? {
        run := AgentHasRun(states, actions, k - 1, id);
        if a.id == id && TickEnded(f, a).Some? {
          var before := f.agents[id];
          ExtendedIsValid(before.info, run, TickEnded(f, a).value);
          run := Extended(before.info, run, TickEnded(f, a).value);
        }
      }
    }
  }

  /**
   * Fleet safety, end to end. Whenever an agent issues finalization in some execution: it
   * holds a slot, no more agents than slots are rebooting with it, its lock was granted in
   * this very tick, and the release it finalizes was selected, confirmed and kept staged
   * in the agent's run, with a payload that is not denylisted.
   */
  lemma FleetFinalizeIsSafe(states: seq<Fleet>, actions: seq<Action>, k: nat, id: NodeId) returns (run: Run)
    requires IsExecution(states, actions) && k < |actions|
    requires IssuesAt(states, actions, k, id)
    ensures id in states[k].agents && id in Rebooting(states[k + 1])
    ensures id in states[k + 1].holders && |Rebooting(states[k + 1])| <= states[k + 1].slots
    ensures var agent := states[k].agents[id];
            && agent.phase.Granted? && agent.phase.inputs.lockReply.IsSuccess()
            && run.inputs == CompletedTicks(states, actions, k, id) + [agent.phase.inputs]
            && SafeAtLast(agent.info, run, agent.state)
  {
    hide Step, Inv, AgentInv, SafeAtLast, CompletedTicks;
    RebootNeedsGrant(states, actions, k, id);
    SlotsBoundReboots(states, actions, k + 1);
    var agent := states[k].agents[id];
    var before := AgentHasRun(states, actions, k, id);
    run := Extended(agent.info, before, agent.phase.inputs);
    LastTickIsSafe(agent.info, before, agent.state, agent.phase.inputs);
  }

  /** The run ends with a tick from the state that finalizes its staged release safely. */
  ghost predicate SafeAtLast(info: Info, run: Run, s: AgentState) {
    var last := |run.inputs| - 1;
    && run.inputs != [] && run.Valid(info) && run.states[last] == s && s.machine.UpdateStaged?
    && (exists i, j :: Staged(info, run, i, j, last, s.machine.release))
    && s.machine.release.payload !in Payloads(s.denylist)
  }

  lemma LastTickIsSafe(info: Info, before: Run, s: AgentState, inputs: Inputs)
    requires LeadsTo(info, before, s) && IssuesFinalize(info, s, inputs)
    ensures SafeAtLast(info, Extended(info, before, inputs), s)
  {
    hide Step, Staged;
    var run := Extended(info, before, inputs);
    ExtendedIsValid(info, before, inputs);
    assert run.inputs[|before.inputs|] == inputs && run.states[|before.inputs|] == s;
    hide Extended, LeadsTo, Run.Valid;
    FinalizeIsSafe(info, run, |before.inputs|);
  }
}
