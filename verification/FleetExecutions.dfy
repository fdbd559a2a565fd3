/**
 * An execution of a fleet in which an agent reboots while an old request of it, which was
 * never processed, could still arrive.
 */
module FleetExecutions {
  import opened Wrappers
  import opened Releases
  import opened UpdateGraph
  import opened Strategy
  import opened UpdateAgent
  import opened Fleet
  import opened DiagramEdges
  import C = Counterexamples

  /** The actions, one after the other, lead from one state of the fleet to another. */
  ghost predicate Leads(f: Fleet, actions: seq<Action>, g: Fleet)
    decreases |actions|
  {
    if actions == [] then f == g
    else Enabled(f, actions[0]) && Leads(Apply(f, actions[0]), actions[1..], g)
  }

  lemma {:induction false} LeadsOn(f: Fleet, first: seq<Action>, g: Fleet, second: seq<Action>, h: Fleet)
    requires Leads(f, first, g) && Leads(g, second, h)
    ensures Leads(f, first + second, h)
    decreases |first|
  {
    hide Apply, Enabled;
    if first == [] {
      assert first + second == second;
    } else {
      LeadsOn(Apply(f, first[0]), first[1..], g, second, h);
      assert (first + second)[1..] == first[1..] + second;
    }
  }

  /** From an initial state, that is an execution. */
  lemma {:induction false} LeadsThrough(f: Fleet, actions: seq<Action>, g: Fleet) returns (states: seq<Fleet>)
    requires Leads(f, actions, g)
    ensures |states| == |actions| + 1 && states[0] == f && states[|actions|] == g
    ensures forall i | 0 <= i < |actions| :: ActsAt(states, actions, i)
    decreases |actions|
  {
    hide Apply, Enabled;
    if actions == [] {
      states := [f];
    } else {
      var rest := LeadsThrough(Apply(f, actions[0]), actions[1..], g);
      states := [f] + rest;
      forall i | 0 <= i < |actions| ensures ActsAt(states, actions, i) {
        if i > 0 { assert ActsAt(rest, actions[1..], i - 1); }
      }
    }
  }

  lemma StepLeads(f: Fleet, a: Action)
    requires Enabled(f, a)
    ensures Leads(f, [a], Apply(f, a))
  {
    hide Apply, Enabled;
    assert [a][1..] == [];
  }

  lemma ThreeLead(f: Fleet, a: Action, b: Action, c: Action)
    requires Enabled(f, a) && Enabled(Apply(f, a), b) && Enabled(Apply(Apply(f, a), b), c)
    ensures Leads(f, [a, b, c], Apply(Apply(Apply(f, a), b), c))
  {
    var g := Apply(f, a);
    var h := Apply(g, b);
    hide Apply, Enabled, Leads;
    StepLeads(f, a);
    StepLeads(g, b);
    StepLeads(h, c);
    LeadsOn(f, [a], g, [b], h);
    LeadsOn(f, [a] + [b], h, [c], Apply(h, c));
    assert [a] + [b] + [c] == [a, b, c];
  }

  /** An agent after `n` ticks that go well. */
  function Along(info: Info, r: Release, n: nat): Agent {
    Agent(info, AgentState(Smooth(r, n), []), Idle, false)
  }

  function With(f: Fleet, id: NodeId, agent: Agent): Fleet {
    f.(agents := f.agents[id := agent])
  }

  lemma WithTwice(f: Fleet, id: NodeId, first: Agent, second: Agent)
    ensures With(With(f, id, first), id, second) == With(f, id, second)
    ensures With(f, id, first).holders == f.holders && With(f, id, first).slots == f.slots
    ensures id in With(f, id, first).agents && With(f, id, first).agents[id] == first
  {
    assert f.agents[id := first][id := second] == f.agents[id := second];
  }

  /** The same for a change of holders. */
  lemma WithHolders(f: Fleet, holders: set<NodeId>, id: NodeId, first: Agent, second: Agent)
    ensures var g := With(f, id, first).(holders := holders);
            && g.holders == holders && id in g.agents && g.agents[id] == first
            && With(g, id, second) == With(f, id, second).(holders := holders)
  {
    assert f.agents[id := first][id := second] == f.agents[id := second];
  }

  ghost predicate FleetGoesWell(info: Info, smooth: Inputs, r: Release) {
    GoesWell(info, smooth, r) && info.strategy.FleetLock?
  }

  ghost predicate IsAlong(f: Fleet, id: NodeId, info: Info, smooth: Inputs, r: Release, n: nat) {
    FleetGoesWell(info, smooth, r) && id in f.agents && f.agents[id] == Along(info, r, n)
  }

  /** A tick that does not need the lock manager. */
  lemma TickLeads(f: Fleet, id: NodeId, info: Info, smooth: Inputs, r: Release, n: nat)
    requires IsAlong(f, id, info, smooth, r, n) && (n == 0 || n == 2 || n == 3)
    ensures Leads(f, [Tick(id, smooth)], With(f, id, Along(info, r, n + 1)))
  {
    SmoothStep(info, smooth, r, n);
    hide Step, GoesWell, Leads;
    StepLeads(f, Tick(id, smooth));
  }

  /** The agent on a call to the lock manager. */
  function OnCall(info: Info, r: Release, n: nat, request: Request, call: Call): Agent {
    Along(info, r, n).(phase := Calling(request, call))
  }

  lemma SendStep(f: Fleet, id: NodeId, info: Info, smooth: Inputs, r: Release, n: nat, request: Request)
    requires IsAlong(f, id, info, smooth, r, n)
    requires (n == 1 && request == Unlock) || (n == 4 && request == Lock)
    ensures Enabled(f, Send(id)) && Apply(f, Send(id)) == With(f, id, OnCall(info, r, n, request, Pending))
  {
    hide FleetGoesWell, ServedHolders;
  }

  lemma ServeStep(f: Fleet, id: NodeId, info: Info, r: Release, n: nat, request: Request)
    requires id in f.agents && f.agents[id] == OnCall(info, r, n, request, Pending)
    requires request == Lock ==> |f.holders| < f.slots
    ensures Enabled(f, Serve(id, false))
    ensures Apply(f, Serve(id, false)) ==
            With(f, id, OnCall(info, r, n, request, Answered(true)))
            .(holders := if request == Lock then f.holders + {id} else f.holders - {id})
  {
    if request == Lock {
      LockIsRecursive(f, Serve(id, false));
    }
    hide Step, Smooth;
  }

  /** A steady-state request that is processed and answered. */
  lemma UnlockLeads(f: Fleet, id: NodeId, info: Info, smooth: Inputs, r: Release)
    requires IsAlong(f, id, info, smooth, r, 1) && smooth.lockReply.IsSuccess()
    ensures Leads(f, [Send(id), Serve(id, false), Return(id, smooth)],
                  With(f, id, Along(info, r, 2)).(holders := f.holders - {id}))
  {
    hide Apply, Enabled, Leads, With, FleetGoesWell, OnCall, Along;
    SendStep(f, id, info, smooth, r, 1, Unlock);
    var onCall, answered := OnCall(info, r, 1, Unlock, Pending), OnCall(info, r, 1, Unlock, Answered(true));
    WithTwice(f, id, onCall, answered);
    ServeStep(With(f, id, onCall), id, info, r, 1, Unlock);
    WithHolders(f, f.holders - {id}, id, answered, Along(info, r, 2));
    UnlockReturns(With(f, id, answered).(holders := f.holders - {id}), id, info, smooth, r);
    ThreeLead(f, Send(id), Serve(id, false), Return(id, smooth));
  }

  lemma UnlockReturns(f: Fleet, id: NodeId, info: Info, smooth: Inputs, r: Release)
    requires FleetGoesWell(info, smooth, r) && smooth.lockReply.IsSuccess()
    requires id in f.agents && f.agents[id] == OnCall(info, r, 1, Unlock, Answered(true))
    ensures Enabled(f, Return(id, smooth)) && Apply(f, Return(id, smooth)) == With(f, id, Along(info, r, 2))
  {
    SmoothStep(info, smooth, r, 1);
    hide Step, GoesWell;
  }

  /** A steady-state request whose call fails before the manager processes it. */
  lemma LostUnlockLeads(f: Fleet, id: NodeId, info: Info, smooth: Inputs, r: Release)
    requires IsAlong(f, id, info, smooth, r, 1)
    ensures Leads(f, [Send(id)] + [Return(id, smooth.(lockReply := NotSent))], f)
  {
    var lost := Return(id, smooth.(lockReply := NotSent));
    hide GoesWell, Leads;
    assert Step(info, AgentState(Initialized, []), lost.inputs) == AgentState(Initialized, []);
    StepLeads(f, Send(id));
    var sent := Apply(f, Send(id));
    assert sent == With(f, id, Along(info, r, 1).(phase := Calling(Unlock, Pending)));
    StepLeads(sent, lost);
    assert Apply(sent, lost).agents == f.agents;
    LeadsOn(f, [Send(id)], sent, [lost], f);
  }

  /** From initialized to an update staged. */
  lemma StagingLeads(f: Fleet, id: NodeId, info: Info, smooth: Inputs, r: Release)
    requires IsAlong(f, id, info, smooth, r, 1) && smooth.lockReply.IsSuccess()
    ensures Leads(f, [Send(id), Serve(id, false), Return(id, smooth)] + [Tick(id, smooth)] + [Tick(id, smooth)],
                  With(f, id, Along(info, r, 4)).(holders := f.holders - {id}))
  {
    hide FleetGoesWell, Along, Leads;
    UnlockLeads(f, id, info, smooth, r);
    var steady := With(f, id, Along(info, r, 2)).(holders := f.holders - {id});
    TickLeads(steady, id, info, smooth, r, 2);
    var available := With(steady, id, Along(info, r, 3));
    TickLeads(available, id, info, smooth, r, 3);
    var staged := With(available, id, Along(info, r, 4));
    assert staged.agents == f.agents[id := Along(info, r, 4)];
    LeadsOn(f, [Send(id), Serve(id, false), Return(id, smooth)], steady, [Tick(id, smooth)], available);
    LeadsOn(f, [Send(id), Serve(id, false), Return(id, smooth)] + [Tick(id, smooth)], available,
            [Tick(id, smooth)], staged);
  }

  function Grant(info: Info, r: Release, smooth: Inputs): Agent {
    Along(info, r, 4).(phase := Granted(smooth))
  }

  function Rebooted(info: Info, r: Release, smooth: Inputs): Agent {
    Along(info, r, 4).(phase := Finalizing(smooth), rebooting := true)
  }

  /** A pre-reboot request that is processed with a slot free. */
  lemma LockLeads(f: Fleet, id: NodeId, info: Info, smooth: Inputs, r: Release)
    requires IsAlong(f, id, info, smooth, r, 4) && smooth.lockReply.IsSuccess() && |f.holders| < f.slots
    ensures Leads(f, [Send(id), Serve(id, false), Return(id, smooth)],
                  With(f, id, Grant(info, r, smooth)).(holders := f.holders + {id}))
  {
    hide Apply, Enabled, Leads, With, FleetGoesWell, OnCall, Along, Grant;
    SendStep(f, id, info, smooth, r, 4, Lock);
    var onCall, answered := OnCall(info, r, 4, Lock, Pending), OnCall(info, r, 4, Lock, Answered(true));
    WithTwice(f, id, onCall, answered);
    ServeStep(With(f, id, onCall), id, info, r, 4, Lock);
    WithHolders(f, f.holders + {id}, id, answered, Grant(info, r, smooth));
    LockReturns(With(f, id, answered).(holders := f.holders + {id}), id, info, smooth, r);
    ThreeLead(f, Send(id), Serve(id, false), Return(id, smooth));
  }

  lemma LockReturns(f: Fleet, id: NodeId, info: Info, smooth: Inputs, r: Release)
    requires FleetGoesWell(info, smooth, r) && smooth.lockReply.IsSuccess()
    requires id in f.agents && f.agents[id] == OnCall(info, r, 4, Lock, Answered(true))
    ensures Enabled(f, Return(id, smooth)) && Apply(f, Return(id, smooth)) == With(f, id, Grant(info, r, smooth))
  {
    hide Step, GoesWell;
  }

  /** Nobody is logged in, and finalization is issued. */
  lemma CheckLeads(f: Fleet, id: NodeId, info: Info, smooth: Inputs, r: Release)
    requires FleetGoesWell(info, smooth, r) && id in f.agents && f.agents[id] == Grant(info, r, smooth)
    ensures Leads(f, [CheckSessions(id)], With(f, id, Rebooted(info, r, smooth)))
  {
    NobodyLoggedIn(info, smooth, r);
    hide Step, FleetGoesWell, Leads, SessionsPermit;
    StepLeads(f, CheckSessions(id));
  }

  lemma NobodyLoggedIn(info: Info, smooth: Inputs, r: Release)
    requires FleetGoesWell(info, smooth, r)
    ensures SessionsPermit(smooth, MAX_FINALIZE_POSTPONEMENTS)
  {
  }

  /** From an update staged to the reboot, with a slot free. */
  lemma RebootLeads(f: Fleet, id: NodeId, info: Info, smooth: Inputs, r: Release)
    requires IsAlong(f, id, info, smooth, r, 4) && smooth.lockReply.IsSuccess() && |f.holders| < f.slots
    ensures Leads(f, [Send(id), Serve(id, false), Return(id, smooth)] + [CheckSessions(id)],
                  With(f, id, Rebooted(info, r, smooth)).(holders := f.holders + {id}))
  {
    LockLeads(f, id, info, smooth, r);
    hide Leads, FleetGoesWell, Grant, Rebooted, Along, With;
    WithHolders(f, f.holders + {id}, id, Grant(info, r, smooth), Rebooted(info, r, smooth));
    var granted := With(f, id, Grant(info, r, smooth)).(holders := f.holders + {id});
    var last := With(f, id, Rebooted(info, r, smooth)).(holders := f.holders + {id});
    CheckLeads(granted, id, info, smooth, r);
    LeadsOn(f, [Send(id), Serve(id, false), Return(id, smooth)], granted, [CheckSessions(id)], last);
  }

  // ---------- Two agents and one slot ----------

  const A: NodeId := 0
  const B: NodeId := 1

  function TwoAgents(info: Info, r: Release, m: nat, n: nat): Fleet {
    Fleet(1, {}, map[A := Along(info, r, m), B := Along(info, r, n)])
  }

  /** The first three actions: `A` starts, asks to unlock, and its call fails with the request unprocessed. */
  function LostRequest(smooth: Inputs): seq<Action> {
    [Tick(A, smooth)] + ([Send(A)] + [Return(A, smooth.(lockReply := NotSent))])
  }

  lemma LostRequestLeads(info: Info, smooth: Inputs, r: Release)
    requires FleetGoesWell(info, smooth, r)
    ensures Leads(TwoAgents(info, r, 0, 0), LostRequest(smooth), TwoAgents(info, r, 1, 0))
  {
    hide Leads, FleetGoesWell, Along;
    var start, ready := TwoAgents(info, r, 0, 0), TwoAgents(info, r, 1, 0);
    TickLeads(start, A, info, smooth, r, 0);
    assert With(start, A, Along(info, r, 1)) == ready;
    LostUnlockLeads(ready, A, info, smooth, r);
    LeadsOn(start, [Tick(A, smooth)], ready, [Send(A)] + [Return(A, smooth.(lockReply := NotSent))], ready);
  }

  /** The two agents each stage an update. */
  lemma BothStage(info: Info, smooth: Inputs, r: Release) returns (actions: seq<Action>)
    requires FleetGoesWell(info, smooth, r) && smooth.lockReply.IsSuccess()
    ensures Leads(TwoAgents(info, r, 1, 0), actions, TwoAgents(info, r, 4, 4))
  {
    hide Leads, FleetGoesWell, Along;
    var f, g, h, k :=
      TwoAgents(info, r, 1, 0), TwoAgents(info, r, 4, 0), TwoAgents(info, r, 4, 1), TwoAgents(info, r, 4, 4);
    var stageA := [Send(A), Serve(A, false), Return(A, smooth)] + [Tick(A, smooth)] + [Tick(A, smooth)];
    var stageB := [Send(B), Serve(B, false), Return(B, smooth)] + [Tick(B, smooth)] + [Tick(B, smooth)];
    StagingLeads(f, A, info, smooth, r);
    assert With(f, A, Along(info, r, 4)).(holders := f.holders - {A}) == g;
    TickLeads(g, B, info, smooth, r, 0);
    assert With(g, B, Along(info, r, 1)) == h;
    StagingLeads(h, B, info, smooth, r);
    assert With(h, B, Along(info, r, 4)).(holders := h.holders - {B}) == k;
    LeadsOn(g, [Tick(B, smooth)], h, stageB, k);
    LeadsOn(f, stageA, g, [Tick(B, smooth)] + stageB, k);
    actions := stageA + ([Tick(B, smooth)] + stageB);
  }

  /** `A` reboots while `B` has its update staged. */
  function RebootingFleet(info: Info, r: Release, smooth: Inputs): Fleet {
    With(TwoAgents(info, r, 4, 4), A, Rebooted(info, r, smooth)).(holders := {A})
  }

  lemma RebootIsReached(info: Info, smooth: Inputs, r: Release) returns (rest: seq<Action>)
    requires FleetGoesWell(info, smooth, r) && smooth.lockReply.IsSuccess()
    ensures Leads(TwoAgents(info, r, 0, 0), LostRequest(smooth) + rest, RebootingFleet(info, r, smooth))
  {
    hide Leads, FleetGoesWell, Along, Rebooted, LostRequest;
    var staged := TwoAgents(info, r, 4, 4);
    LostRequestLeads(info, smooth, r);
    var staging := BothStage(info, smooth, r);
    RebootLeads(staged, A, info, smooth, r);
    var reboot := [Send(A), Serve(A, false), Return(A, smooth)] + [CheckSessions(A)];
    assert staged.holders + {A} == {A};
    LeadsOn(TwoAgents(info, r, 1, 0), staging, staged, reboot, RebootingFleet(info, r, smooth));
    rest := staging + reboot;
    LeadsOn(TwoAgents(info, r, 0, 0), LostRequest(smooth), TwoAgents(info, r, 1, 0), rest,
            RebootingFleet(info, r, smooth));
  }

  // ---------- Through the reboot ----------

  /** An agent that has been finalized, or restarted, and has not asked to unlock yet. */
  function Back(info: Info, machine: MachineState): Agent {
    Agent(info, AgentState(machine, []), Idle, true)
  }

  /** Finalizing returns, and the update is finalized. */
  lemma FinalizedLeads(f: Fleet, id: NodeId, info: Info, smooth: Inputs, r: Release)
    requires FleetGoesWell(info, smooth, r) && id in f.agents && f.agents[id] == Rebooted(info, r, smooth)
    ensures Leads(f, [FinalizeReturns(id)], With(f, id, Back(info, UpdateFinalized(r))))
  {
    SmoothStep(info, smooth, r, 4);
    hide Step, GoesWell, Leads;
    StepLeads(f, FinalizeReturns(id));
  }

  /** The node comes back, booted into another release and configured anew. */
  lemma RestartLeads(f: Fleet, id: NodeId, agent: Agent, info: Info)
    requires id in f.agents && f.agents[id] == agent && agent.rebooting && info.strategy.FleetLock?
    ensures Leads(f, [Restart(id, info)], With(f, id, Back(info, StartState)))
  {
    hide Leads;
    StepLeads(f, Restart(id, info));
  }

  lemma StartLeads(f: Fleet, id: NodeId, info: Info, smooth: Inputs, r: Release)
    requires FleetGoesWell(info, smooth, r) && id in f.agents && f.agents[id] == Back(info, StartState)
    ensures Leads(f, [Tick(id, smooth)], With(f, id, Back(info, Initialized)))
  {
    SmoothStep(info, smooth, r, 0);
    hide Step, GoesWell, Leads;
    StepLeads(f, Tick(id, smooth));
  }

  lemma AskStep(f: Fleet, id: NodeId, info: Info, r: Release)
    requires id in f.agents && f.agents[id] == Back(info, Initialized)
    ensures Enabled(f, Send(id)) && Apply(f, Send(id)) == With(f, id, OnCall(info, r, 1, Unlock, Pending))
  {
    hide Step;
  }

  /** It asks to unlock, is answered, and is steady again, without a slot. */
  lemma ReleaseLeads(f: Fleet, id: NodeId, info: Info, smooth: Inputs, r: Release)
    requires FleetGoesWell(info, smooth, r) && smooth.lockReply.IsSuccess()
    requires id in f.agents && f.agents[id] == Back(info, Initialized)
    ensures Leads(f, [Send(id), Serve(id, false), Return(id, smooth)],
                  With(f, id, Along(info, r, 2)).(holders := f.holders - {id}))
  {
    hide Apply, Enabled, Leads, With, FleetGoesWell, OnCall, Along, Back;
    AskStep(f, id, info, r);
    var onCall, answered := OnCall(info, r, 1, Unlock, Pending), OnCall(info, r, 1, Unlock, Answered(true));
    WithTwice(f, id, onCall, answered);
    ServeStep(With(f, id, onCall), id, info, r, 1, Unlock);
    WithHolders(f, f.holders - {id}, id, answered, Along(info, r, 2));
    UnlockReturns(With(f, id, answered).(holders := f.holders - {id}), id, info, smooth, r);
    ThreeLead(f, Send(id), Serve(id, false), Return(id, smooth));
  }

  /** The actions that bring a rebooting agent back. */
  function ComeBack(id: NodeId, smooth: Inputs, newInfo: Info, newSmooth: Inputs): seq<Action> {
    [FinalizeReturns(id)] + ([Restart(id, newInfo)] + ([Tick(id, newSmooth)]
      + [Send(id), Serve(id, false), Return(id, newSmooth)]))
  }

  /**
   * From the reboot through finalization and restart to the unlock: the agent ends up
   * steady, no longer rebooting, and its slot is free again.
   */
  lemma ComeBackLeads(
    f: Fleet, id: NodeId, info: Info, smooth: Inputs, r: Release, newInfo: Info, newSmooth: Inputs, next: Release)
    requires FleetGoesWell(info, smooth, r) && id in f.agents && f.agents[id] == Rebooted(info, r, smooth)
    requires FleetGoesWell(newInfo, newSmooth, next) && newSmooth.lockReply.IsSuccess()
    ensures Leads(f, ComeBack(id, smooth, newInfo, newSmooth),
                  With(f, id, Along(newInfo, next, 2)).(holders := f.holders - {id}))
  {
    StrategyOf(newInfo, newSmooth, next);
    BackIsRebooting(info, UpdateFinalized(r));
    hide Leads, With, FleetGoesWell, Rebooted, Along, Back;
    var done, start, ready := Back(info, UpdateFinalized(r)), Back(newInfo, StartState), Back(newInfo, Initialized);
    var steady := Along(newInfo, next, 2);
    WithTwice(f, id, done, start);
    WithTwice(f, id, start, ready);
    WithTwice(f, id, ready, steady);
    FinalizedLeads(f, id, info, smooth, r);
    RestartLeads(With(f, id, done), id, done, newInfo);
    StartLeads(With(f, id, start), id, newInfo, newSmooth, next);
    ReleaseLeads(With(f, id, ready), id, newInfo, newSmooth, next);
    var last := With(f, id, steady).(holders := f.holders - {id});
    var release := [Send(id), Serve(id, false), Return(id, newSmooth)];
    LeadsOn(With(f, id, start), [Tick(id, newSmooth)], With(f, id, ready), release, last);
    LeadsOn(With(f, id, done), [Restart(id, newInfo)], With(f, id, start), [Tick(id, newSmooth)] + release, last);
    LeadsOn(f, [FinalizeReturns(id)], With(f, id, done), [Restart(id, newInfo)] + ([Tick(id, newSmooth)] + release), last);
  }

  lemma BackIsRebooting(info: Info, machine: MachineState)
    ensures Back(info, machine).rebooting
  {
  }

  /**
   * An execution in which an agent goes all the way round: it locks the only slot, reboots,
   * comes back with another configuration, unlocks, and leaves the slot to the other agent.
   */
  lemma RebootCompletes(info: Info, smooth: Inputs, r: Release, newInfo: Info, newSmooth: Inputs, next: Release)
    returns (states: seq<Fleet>, actions: seq<Action>, middle: nat)
    requires FleetGoesWell(info, smooth, r) && smooth.lockReply.IsSuccess()
    requires FleetGoesWell(newInfo, newSmooth, next) && newSmooth.lockReply.IsSuccess()
    ensures IsExecution(states, actions) && states[0].slots == 1 && middle < |actions|
    ensures actions[middle..] == ComeBack(A, smooth, newInfo, newSmooth)
    ensures states[middle] == RebootingFleet(info, r, smooth)
    ensures states[|actions|] == With(TwoAgents(info, r, 4, 4), A, Along(newInfo, next, 2))
  {
    hide Leads, FleetGoesWell, ActsAt, Along, Rebooted, LostRequest, Initial, Back;
    var f := RebootingFleet(info, r, smooth);
    var rest := RebootIsReached(info, smooth, r);
    var first, second := LostRequest(smooth) + rest, ComeBack(A, smooth, newInfo, newSmooth);
    ComeBackLeads(f, A, info, smooth, r, newInfo, newSmooth, next);
    var last := With(f, A, Along(newInfo, next, 2)).(holders := f.holders - {A});
    assert last == With(TwoAgents(info, r, 4, 4), A, Along(newInfo, next, 2)) by {
      assert last.agents == TwoAgents(info, r, 4, 4).agents[A := Along(newInfo, next, 2)];
      assert last.holders == {};
    }
    var before := LeadsThrough(TwoAgents(info, r, 0, 0), first, f);
    var after := LeadsThrough(f, second, last);
    middle := |first|;
    states, actions := before + after[1..], first + second;
    JoinedActs(before, first, after, second);
    StrategyOf(info, smooth, r);
    TwoAgentsStart(info, r);
  }

  lemma JoinedActs(before: seq<Fleet>, first: seq<Action>, after: seq<Fleet>, second: seq<Action>)
    requires |before| == |first| + 1 && |after| == |second| + 1 && before[|first|] == after[0]
    requires forall i | 0 <= i < |first| :: ActsAt(before, first, i)
    requires forall i | 0 <= i < |second| :: ActsAt(after, second, i)
    ensures var states, actions := before + after[1..], first + second;
            |states| == |actions| + 1 && forall i | 0 <= i < |actions| :: ActsAt(states, actions, i)
  {
    hide Enabled, Apply;
    var states, actions := before + after[1..], first + second;
    forall i | 0 <= i < |actions| ensures ActsAt(states, actions, i) {
      if i < |first| {
        assert ActsAt(before, first, i);
      } else {
        assert ActsAt(after, second, i - |first|);
      }
    }
  }

  // ---------- A request that is left ----------

  /** Node `id` asks to unlock at action `i`, and its call returns without the manager having processed it. */
  ghost predicate LeavesRequest(states: seq<Fleet>, actions: seq<Action>, i: nat, id: NodeId) {
    && i + 1 < |actions| && i < |states|
    && actions[i] == Send(id) && id in states[i].agents && states[i].agents[id].state.machine.Initialized?
    && actions[i + 1].Return? && actions[i + 1].id == id
  }

  /** The first action of the execution starts `A`, so that the second asks to unlock. */
  lemma RequestIsLeft(info: Info, smooth: Inputs, r: Release, states: seq<Fleet>, rest: seq<Action>)
    requires FleetGoesWell(info, smooth, r)
    requires var actions := LostRequest(smooth) + rest;
             |states| == |actions| + 1 && states[0] == TwoAgents(info, r, 0, 0) && ActsAt(states, actions, 0)
    ensures LeavesRequest(states, LostRequest(smooth) + rest, 1, A)
  {
    SmoothStep(info, smooth, r, 0);
    hide Step, GoesWell;
    var actions := LostRequest(smooth) + rest;
    assert actions[0] == Tick(A, smooth) && actions[1] == Send(A) && actions[2].Return?;
    assert states[1].agents[A] == Along(info, r, 1);
  }

  lemma TwoAgentsStart(info: Info, r: Release)
    requires info.strategy.FleetLock?
    ensures Initial(TwoAgents(info, r, 0, 0))
  {
  }

  lemma BothCouldReboot(info: Info, smooth: Inputs, r: Release)
    requires FleetGoesWell(info, smooth, r) && smooth.lockReply == Response(200)
    requires Inv(RebootingFleet(info, r, smooth))
    ensures Rebooting(RebootingFleet(info, r, smooth)) == {A} && BothReboot(RebootingFleet(info, r, smooth), A, B, smooth)
  {
    hide Inv, BothReboot, Step;
    var f := RebootingFleet(info, r, smooth);
    assert f.agents[B] == Along(info, r, 4) && f.agents[A].rebooting;
    LateUnlockBreaksBound(f, A, B, smooth);
  }

  /**
   * The network assumption is needed, in an execution: one of two agents reboots with the
   * only slot, and an old unlock request of it has been left unprocessed. If the manager
   * processed that request now, the other agent could get the slot and reboot too.
   */
  lemma LateUnlockHappens(info: Info, smooth: Inputs, r: Release) returns (states: seq<Fleet>, actions: seq<Action>)
    requires FleetGoesWell(info, smooth, r) && smooth.lockReply == Response(200)
    ensures IsExecution(states, actions) && states[0].slots == 1
    ensures LeavesRequest(states, actions, 1, A)
    ensures Rebooting(states[|actions|]) == {A} == states[|actions|].holders
    ensures BothReboot(states[|actions|], A, B, smooth)
  {
    hide Leads, FleetGoesWell, ActsAt, Rebooting, BothReboot, LeavesRequest, Inv, Initial, LostRequest, Along, Rebooted;
    var rest := RebootIsReached(info, smooth, r);
    actions := LostRequest(smooth) + rest;
    states := LeadsThrough(TwoAgents(info, r, 0, 0), actions, RebootingFleet(info, r, smooth));
    LostRequestIsThree(smooth);
    RequestIsLeft(info, smooth, r, states, rest);
    StrategyOf(info, smooth, r);
    TwoAgentsStart(info, r);
    ExecutionKeepsInv(states, actions, |actions|);
    BothCouldReboot(info, smooth, r);
  }

  lemma LostRequestIsThree(smooth: Inputs)
    ensures |LostRequest(smooth)| == 3
  {
  }

  lemma StrategyOf(info: Info, smooth: Inputs, r: Release)
    requires FleetGoesWell(info, smooth, r)
    ensures info.strategy.FleetLock?
  {
  }

  function FleetInfo(): Info {
    C.AGENT.(strategy := FleetLock)
  }

  function FleetInputs(): Inputs {
    C.ANSWERS.(localDeployments := None, lockReply := Response(200),
               pending := Ok(Some((C.TARGET.(ageIndex := None), "stable"))))
  }

  lemma HintIgnoresStrategy(info: Info, graph: Option<Graph>)
    ensures UpdateHint(info.(strategy := FleetLock), [], graph) == UpdateHint(info, [], graph)
  {
    hide Select;
  }

  lemma FleetLockGoesWell(info: Info, smooth: Inputs, r: Release)
    requires UpdateHint(info, [], smooth.graph) == Some(r) && StageOutcome(info, smooth, r) == Ok(true)
    requires info.enabled && smooth.localDeployments == None && smooth.finalized
    requires smooth.sessions == Some(0) && !smooth.overridden && smooth.lockReply.IsSuccess()
    ensures FleetGoesWell(info.(strategy := FleetLock), smooth, r)
  {
    HintIgnoresStrategy(info, smooth.graph);
    hide UpdateHint;
  }

  /** Such agents and answers exist. */
  lemma FleetInputsGoWell()
    ensures FleetGoesWell(FleetInfo(), FleetInputs(), C.TARGET) && FleetInputs().lockReply == Response(200)
  {
    C.HintIsTarget([]);
    hide UpdateHint, C.GRAPH, FleetGoesWell;
    FleetLockGoesWell(C.AGENT, FleetInputs(), C.TARGET);
  }
}
