/**
 * Many agents with the fleet_lock strategy against one lock manager: a counting
 * semaphore with recursive, owned locks (docs/development/fleetlock/protocol.md,
 * src/strategy/fleet_lock.rs, src/fleet_lock/mod.rs, src/update_agent/actor.rs).
 *
 * A tick that talks to the lock manager is split into the call, its processing by the
 * manager, its return, the look at user sessions and the result of finalizing, so that
 * other agents may act in between. Network assumption: a request is processed at most
 * once, and never after the call that made it has returned or its agent has restarted;
 * any response may be lost.
 */
module Fleet {
  import opened Wrappers
  import opened FiniteSets
  import opened Strategy
  import opened UpdateAgent
  import opened AgentTicks

  type NodeId = nat

  datatype Request = Lock | Unlock

  datatype Call = Pending | Answered(ok: bool)

  /** Where an agent is inside a tick; `inputs` is all that the tick learns from outside. */
  datatype Phase =
    | Idle
    | Calling(request: Request, call: Call)
    | Granted(inputs: Inputs)
    | Finalizing(inputs: Inputs)

  /** `rebooting`: finalization was issued, and no steady-state request has been sent since. */
  datatype Agent = Agent(info: Info, state: AgentState, phase: Phase, rebooting: bool)

  datatype Fleet = Fleet(slots: nat, holders: set<NodeId>, agents: map<NodeId, Agent>)

  datatype Action =
    | Tick(id: NodeId, inputs: Inputs)
    | Send(id: NodeId)
    | Serve(id: NodeId, failing: bool)
    | Return(id: NodeId, inputs: Inputs)
    | CheckSessions(id: NodeId)
    | FinalizeReturns(id: NodeId)
    | Restart(id: NodeId, info: Info)

  /** Whether the state's tick starts with a call to the lock manager. */
  predicate NeedsManager(machine: MachineState) {
    machine.Initialized? || machine.UpdateStaged?
  }

  ghost predicate Enabled(f: Fleet, a: Action) {
    && a.id in f.agents
    && var agent := f.agents[a.id];
       match a
       case Tick(_, _) => agent.phase.Idle? && !NeedsManager(agent.state.machine)
       case Send(_) => agent.phase.Idle? && NeedsManager(agent.state.machine)
       case Serve(_, _) => agent.phase.Calling? && agent.phase.call.Pending?
       case Return(_, inputs) =>
         agent.phase.Calling? && (inputs.lockReply.IsSuccess() ==> agent.phase.call == Answered(true))
       case CheckSessions(_) => agent.phase.Granted? && agent.state.machine.UpdateStaged?
       case FinalizeReturns(_) => agent.phase.Finalizing?
       case Restart(_, info) => info.strategy.FleetLock?
  }

  /** A tick is over: the agent's state is that of the whole tick. */
  function Finished(agent: Agent, inputs: Inputs): Agent {
    agent.(state := Step(agent.info, agent.state, inputs), phase := Idle)
  }

  /** Whether the manager lets a node lock: it already holds a slot, or one is free. */
  predicate MayLock(f: Fleet, id: NodeId) {
    id in f.holders || |f.holders| < f.slots
  }

  function ServedHolders(f: Fleet, id: NodeId, request: Request, failing: bool): set<NodeId> {
    if failing then f.holders
    else
      match request
      case Lock => if MayLock(f, id) then f.holders + {id} else f.holders
      case Unlock => f.holders - {id}
  }

  /** What an action does to its agent. */
  function AgentAfter(f: Fleet, a: Action): Agent
    requires Enabled(f, a)
  {
    var agent := f.agents[a.id];
    match a
    case Tick(_, inputs) => Finished(agent, inputs)
    case Send(_) =>
      if agent.state.machine.Initialized? then agent.(phase := Calling(Unlock, Pending), rebooting := false)
      else agent.(phase := Calling(Lock, Pending))
    case Serve(id, failing) =>
      var ok := !failing && (agent.phase.request.Unlock? || MayLock(f, id));
      agent.(phase := Calling(agent.phase.request, Answered(ok)))
    case Return(_, inputs) =>
      if agent.phase.request.Lock? && CanFinalize(agent.info.strategy, inputs.minute, inputs.lockReply)
      then agent.(phase := Granted(inputs))
      else Finished(agent, inputs)
    case CheckSessions(_) =>
      if SessionsPermit(agent.phase.inputs, agent.state.machine.postponements)
      then agent.(phase := Finalizing(agent.phase.inputs), rebooting := true)
      else Finished(agent, agent.phase.inputs)
    case FinalizeReturns(_) => Finished(agent, agent.phase.inputs)
    case Restart(_, info) => agent.(info := info, state := INITIAL_STATE, phase := Idle)
  }

  function HoldersAfter(f: Fleet, a: Action): set<NodeId>
    requires Enabled(f, a)
  {
    if a.Serve? then ServedHolders(f, a.id, f.agents[a.id].phase.request, a.failing) else f.holders
  }

  function Apply(f: Fleet, a: Action): Fleet
    requires Enabled(f, a)
  {
    f.(holders := HoldersAfter(f, a), agents := f.agents[a.id := AgentAfter(f, a)])
  }

  /** Any agents of the fleet_lock strategy, just started; the manager may remember earlier locks. */
  ghost predicate Initial(f: Fleet) {
    && |f.holders| <= f.slots
    && forall id | id in f.agents ::
         f.agents[id].info.strategy.FleetLock? && f.agents[id].state == INITIAL_STATE
         && f.agents[id].phase.Idle? && !f.agents[id].rebooting
  }

  /** The states of an execution, from an initial one, each by an action enabled in the one before. */
  ghost predicate IsExecution(states: seq<Fleet>, actions: seq<Action>) {
    && |states| == |actions| + 1
    && Initial(states[0])
    && forall i | 0 <= i < |actions| :: ActsAt(states, actions, i)
  }

  ghost predicate ActsAt(states: seq<Fleet>, actions: seq<Action>, i: nat)
    requires i < |actions| && |states| == |actions| + 1
  {
    Enabled(states[i], actions[i]) && states[i + 1] == Apply(states[i], actions[i])
  }

  /** States in which an agent polls for updates or stages one; it must not occupy a slot then. */
  predicate IsSteady(machine: MachineState) {
    machine.ReportedSteady? || machine.NoNewUpdate? || machine.UpdateAvailable?
  }

  /** What holds for one agent, given whether it holds a slot. */
  ghost predicate AgentInv(agent: Agent, holds: bool) {
    && agent.info.strategy.FleetLock?
    && (agent.rebooting ==> holds)
    && (IsSteady(agent.state.machine) ==> !holds)
    && match agent.phase
       case Idle => true
       case Calling(Unlock, call) =>
         agent.state.machine.Initialized? && !agent.rebooting && (call == Answered(true) ==> !holds)
       case Calling(Lock, call) => agent.state.machine.UpdateStaged? && (call == Answered(true) ==> holds)
       case Granted(inputs) => agent.state.machine.UpdateStaged? && holds && inputs.lockReply.IsSuccess()
       case Finalizing(inputs) =>
         holds && agent.rebooting && inputs.lockReply.IsSuccess() && IssuesFinalize(agent.info, agent.state, inputs)
  }

  ghost predicate Inv(f: Fleet) {
    && |f.holders| <= f.slots
    && forall id | id in f.agents :: AgentInv(f.agents[id], id in f.holders)
  }

  lemma AgentKeepsInv(f: Fleet, a: Action)
    requires Inv(f) && Enabled(f, a)
    ensures AgentInv(AgentAfter(f, a), a.id in HoldersAfter(f, a))
  {
  }

  /** Locks are owned: an action changes the slot of no other node, and never overfills. */
  lemma HoldersAreOwned(f: Fleet, a: Action)
    requires Enabled(f, a)
    ensures forall id | id != a.id :: id in HoldersAfter(f, a) <==> id in f.holders
    ensures |f.holders| <= f.slots ==> |HoldersAfter(f, a)| <= f.slots
  {
  }

  lemma ActionKeepsInv(f: Fleet, a: Action)
    requires Inv(f) && Enabled(f, a)
    ensures Inv(Apply(f, a))
  {
    AgentKeepsInv(f, a);
    HoldersAreOwned(f, a);
    hide AgentAfter, HoldersAfter, AgentInv;
    var g := Apply(f, a);
    forall id | id in g.agents ensures AgentInv(g.agents[id], id in g.holders) {
      if id != a.id { assert AgentInv(f.agents[id], id in f.holders); }
    }
  }

  lemma {:induction false} ExecutionKeepsInv(states: seq<Fleet>, actions: seq<Action>, k: nat)
    requires IsExecution(states, actions) && k < |states|
    ensures Inv(states[k])
  {
    if k > 0 {
      ExecutionKeepsInv(states, actions, k - 1);
      assert ActsAt(states, actions, k - 1);
      ActionKeepsInv(states[k - 1], actions[k - 1]);
    }
  }

  /** The agents that have issued finalization and not yet sent their next steady-state request. */
  function Rebooting(f: Fleet): set<NodeId> {
    set id | id in f.agents && f.agents[id].rebooting
  }

  /**
   * Fleet-wide mutual exclusion: in every execution, the agents that have issued
   * finalization and not yet asked to unlock all hold a slot, so they are never more than
   * the slots; and an agent that polls for updates holds none.
   */
  lemma SlotsBoundReboots(states: seq<Fleet>, actions: seq<Action>, k: nat)
    requires IsExecution(states, actions) && k < |states|
    ensures Rebooting(states[k]) <= states[k].holders
    ensures |Rebooting(states[k])| <= states[k].slots
    ensures forall id | id in states[k].agents :: IsSteady(states[k].agents[id].state.machine) ==> id !in states[k].holders
  {
    var f := states[k];
    ExecutionKeepsInv(states, actions, k);
    forall id | id in f.agents
      ensures f.agents[id].rebooting ==> id in f.holders
      ensures IsSteady(f.agents[id].state.machine) ==> id !in f.holders
    {
      assert AgentInv(f.agents[id], id in f.holders);
    }
    SubsetSize(Rebooting(f), f.holders);
  }

  /** The action issues finalization for the agent: its look at the sessions goes on to finalize. */
  ghost predicate IssuesAt(states: seq<Fleet>, actions: seq<Action>, k: nat, id: NodeId) {
    && k < |actions| && k + 1 < |states|
    && actions[k] == CheckSessions(id)
    && id in states[k + 1].agents && states[k + 1].agents[id].phase.Finalizing?
  }

  /**
   * Finalization is only ever issued in a tick whose lock was granted and is still held, and
   * exactly as the agent's own tick would issue it; and nothing else makes an agent reboot.
   */
  lemma RebootNeedsGrant(states: seq<Fleet>, actions: seq<Action>, k: nat, id: NodeId)
    requires IsExecution(states, actions) && k < |actions|
    requires IssuesAt(states, actions, k, id) || id in Rebooting(states[k + 1]) - Rebooting(states[k])
    ensures IssuesAt(states, actions, k, id)
    ensures id in states[k].agents && id in Rebooting(states[k + 1])
    ensures var agent := states[k].agents[id];
            && agent.phase.Granted? && id in states[k].holders && states[k + 1].holders == states[k].holders
            && agent.phase.inputs.lockReply.IsSuccess()
            && IssuesFinalize(agent.info, agent.state, agent.phase.inputs)
  {
    hide Step;
    ExecutionKeepsInv(states, actions, k);
    assert ActsAt(states, actions, k);
    assert AgentInv(states[k].agents[id], id in states[k].holders);
  }

  /** A denied or failed pre-reboot call ends the tick without finalization and resets the postponements. */
  lemma DenialEndsTick(f: Fleet, a: Action)
    requires Inv(f) && Enabled(f, a) && a.Return? && f.agents[a.id].phase.request.Lock?
    requires !a.inputs.lockReply.IsSuccess()
    ensures AgentAfter(f, a) ==
            f.agents[a.id].(
              phase := Idle,
              state := f.agents[a.id].state.(
                machine := UpdateStaged(f.agents[a.id].state.machine.release, MAX_FINALIZE_POSTPONEMENTS)))
  {
    assert AgentInv(f.agents[a.id], a.id in f.holders);
  }

  /** What the tick that the action belongs to learns, if the action ends that tick. */
  function TickEnded(f: Fleet, a: Action): Option<Inputs>
    requires Enabled(f, a)
  {
    match a
    case Tick(_, inputs) => Some(inputs)
    case Return(_, inputs) => if AgentAfter(f, a).phase.Idle? then Some(inputs) else None
    case CheckSessions(_) => if AgentAfter(f, a).phase.Idle? then Some(f.agents[a.id].phase.inputs) else None
    case FinalizeReturns(_) => Some(f.agents[a.id].phase.inputs)
    case _ => None
  }

  /**
   * Seen from one agent, an execution is a sequence of runs of that agent: a restart starts
   * it afresh, perhaps booted into another release and configured otherwise; an action that
   * ends a tick completes that whole tick, and leaves the agent idle; and every other action,
   * as well as any of another agent, leaves its state alone.
   */
  lemma ExecutionIsAgentRun(f: Fleet, a: Action, id: NodeId)
    requires Enabled(f, a) && id in f.agents
    ensures var before, after := f.agents[id], Apply(f, a).agents[id];
            if a.id != id then after == before
            else if a.Restart? then after == Agent(a.info, INITIAL_STATE, Idle, before.rebooting)
            else
              && after.info == before.info
              && (TickEnded(f, a).Some? <==> after.phase.Idle?)
              && after.state ==
                 if TickEnded(f, a).Some? then Step(before.info, before.state, TickEnded(f, a).value) else before.state
  {
    hide Step;
  }

  /** The result of finalizing is kept: the update is finalized exactly if it succeeded, else staged as before. */
  lemma FinalizeEndsTick(f: Fleet, id: NodeId)
    requires Inv(f) && Enabled(f, FinalizeReturns(id))
    ensures var before, after := f.agents[id], AgentAfter(f, FinalizeReturns(id));
            && before.state.machine.UpdateStaged?
            && after.phase == Idle && after.rebooting
            && after.state ==
               if before.phase.inputs.finalized
               then before.state.(machine := UpdateFinalized(before.state.machine.release))
               else before.state
  {
    assert AgentInv(f.agents[id], id in f.holders);
    FinalizesExactly(f.agents[id].info, f.agents[id].state, f.agents[id].phase.inputs);
    hide Step;
  }

  /** A tick goes on exactly after a granted lock, and then exactly if the agent's own tick would issue finalization. */
  lemma TickGoesOnExactly(f: Fleet, a: Action)
    requires Inv(f) && Enabled(f, a)
    ensures var agent, phase := f.agents[a.id], AgentAfter(f, a).phase;
            match a
            case Return(_, inputs) =>
              if agent.phase.request.Lock? && inputs.lockReply.IsSuccess() then phase == Granted(inputs) else phase == Idle
            case CheckSessions(_) =>
              if IssuesFinalize(agent.info, agent.state, agent.phase.inputs)
              then phase == Finalizing(agent.phase.inputs) && AgentAfter(f, a).rebooting else phase == Idle
            case _ => true
  {
    assert AgentInv(f.agents[a.id], a.id in f.holders);
    hide Step;
  }

  /** An agent counts as rebooting from the action that issues finalization to the next steady-state request it sends. */
  lemma RebootingExactly(f: Fleet, a: Action, id: NodeId)
    requires Enabled(f, a) && id in f.agents
    ensures var before, after := f.agents[id], Apply(f, a).agents[id];
            after.rebooting <==>
              || (a == CheckSessions(id) && after.phase.Finalizing?)
              || (before.rebooting && !(a == Send(id) && before.state.machine == Initialized))
  {
    hide Step;
  }

  /** Every agent can always do something, and can be restarted with any configuration of the strategy. */
  lemma NothingGetsStuck(f: Fleet, id: NodeId, inputs: Inputs, info: Info)
    requires Inv(f) && id in f.agents
    ensures Enabled(f, Restart(id, info)) <==> info.strategy.FleetLock?
    ensures match f.agents[id].phase
            case Idle => Enabled(f, Tick(id, inputs)) || Enabled(f, Send(id))
            case Calling(_, call) => call.Pending? <==> Enabled(f, Serve(id, true)) && Enabled(f, Serve(id, false))
            case Granted(_) => Enabled(f, CheckSessions(id))
            case Finalizing(_) => Enabled(f, FinalizeReturns(id))
  {
    assert AgentInv(f.agents[id], id in f.holders);
  }

  /** A call can fail at any time, whether it was processed or not, and succeed only after it was granted. */
  lemma ResponsesMayBeLost(f: Fleet, id: NodeId, inputs: Inputs)
    requires id in f.agents && f.agents[id].phase.Calling?
    ensures Enabled(f, Return(id, inputs)) <==>
            inputs.lockReply.IsSuccess() ==> f.agents[id].phase.call == Answered(true)
  {
  }

  /** Locking is recursive: a holder that asks again is granted, and holds one slot as before. */
  lemma LockIsRecursive(f: Fleet, a: Action)
    requires Enabled(f, a) && a.Serve? && !a.failing && f.agents[a.id].phase.request.Lock?
    ensures a.id in f.holders ==> HoldersAfter(f, a) == f.holders
    ensures AgentAfter(f, a).phase == Calling(Lock, Answered(a.id in HoldersAfter(f, a)))
    ensures a.id in HoldersAfter(f, a) <==> a.id in f.holders || |f.holders| < f.slots
  {
    assert a.id in f.holders ==> f.holders + {a.id} == f.holders;
  }

  /** If a slot is taken from `a` behind its back, `b` can get it, and both reboot. */
  ghost predicate BothReboot(f: Fleet, a: NodeId, b: NodeId, granted: Inputs) {
    var late := f.(holders := f.holders - {a});
    && Enabled(late, Send(b))
    && var sent := Apply(late, Send(b));
    && Enabled(sent, Serve(b, false))
    && var served := Apply(sent, Serve(b, false));
    && Enabled(served, Return(b, granted))
    && var returned := Apply(served, Return(b, granted));
    && Enabled(returned, CheckSessions(b))
    && {a, b} <= Rebooting(Apply(returned, CheckSessions(b)))
  }

  /**
   * The network assumption is needed. If a steady-state request of a node were processed
   * after its call had returned, the node would lose its slot while rebooting, and with a
   * single slot a second node could start to reboot beside it.
   */
  lemma LateUnlockBreaksBound(f: Fleet, a: NodeId, b: NodeId, granted: Inputs)
    requires Inv(f) && f.slots == 1 && a in f.agents && b in f.agents && a != b
    requires a in Rebooting(f)
    requires f.agents[b].phase.Idle? && f.agents[b].state.machine.UpdateStaged?
    requires granted.lockReply == Response(200) && granted.sessions == Some(0)
    ensures BothReboot(f, a, b, granted)
  {
    assert AgentInv(f.agents[a], a in f.holders) && AgentInv(f.agents[b], b in f.holders);
    hide Step, Inv;
    var late := f.(holders := f.holders - {a});
    assert |late.holders| == |f.holders| - 1;
  }
}
