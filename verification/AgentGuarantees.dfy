/** What the parts promise together, from what is configured and deployed to what is finalized. */
module AgentGuarantees {
  import opened Wrappers
  import opened ReleaseSets
  import opened WeeklyTime
  import opened ConfigInputs
  import opened Periodic
  import opened Strategy
  import opened UpdateAgent
  import opened AgentRuns
  import opened StatusCaches

  /**
   * An agent that has listed the finalized local deployments at its start never turns to
   * the payload of one of them, when no two of one version have different payloads of one text.
   */
  lemma FinalizedDeploymentsBlocked(info: Info, run: Run, status: Status, i: nat, b: nat)
    requires run.Valid(info) && 1 <= b < |run.states|
    requires run.inputs[0].localDeployments == Some(Listed(status, true, |status|)) && DistinctTexts(status)
    requires i < |status| && !status[i].staged
    ensures var target := Target(run.states[b].machine);
            target.Some? ==> target.value.payload != status[i].IntoRelease().payload
  {
    hide Listed, DistinctTexts, Step;
    var p := status[i].IntoRelease().payload;
    FinalizedPayloadsListed(status, p);
    var r :| r in Listed(status, true, |status|) && r.payload == p;
    InitialDeploymentsBlocked(info, run, b, r);
  }

  /** Some interval that the fragments configure allows the minute. */
  ghost predicate ConfiguredMinute(fragments: seq<UpdateFragment>, minute: nat) {
    exists e :: Configures(fragments, e) && IsUsable(e) && Allows(e, minute)
  }

  lemma ConfiguredExactly(fragments: seq<UpdateFragment>, minute: nat)
    requires Schedule(AllIntervals(fragments)).Ok? && minute < MAX_WEEKLY_MINS
    ensures Schedule(AllIntervals(fragments)).value.ContainsMinute(minute) <==> ConfiguredMinute(fragments, minute)
  {
    var entries := AllIntervals(fragments);
    AllowedExactly(entries, minute);
    hide Schedule, IsUsable, Configures, AllIntervals, Allows;
    forall e ensures e in entries <==> Configures(fragments, e) {
      IntervalsExactly(fragments, e);
    }
  }

  /**
   * An agent with the periodic strategy finalizes exactly when it has an update staged, in
   * a minute that an interval of its configuration allows, and nobody is to be waited for.
   */
  lemma PeriodicFinalizesExactly(info: Info, fragments: seq<UpdateFragment>, s: AgentState, inputs: Inputs)
    requires Schedule(AllIntervals(fragments)).Ok? && inputs.minute < MAX_WEEKLY_MINS
    requires info.strategy == PeriodicSchedule(Schedule(AllIntervals(fragments)).value)
    ensures IssuesFinalize(info, s, inputs) <==>
            && s.machine.UpdateStaged?
            && ConfiguredMinute(fragments, inputs.minute)
            && (inputs.sessions == None || inputs.sessions == Some(0) || inputs.overridden || s.machine.postponements == 0)
  {
    ConfiguredExactly(fragments, inputs.minute);
    IssuedExactly(info, s, inputs);
    hide Schedule, ConfiguredMinute, IssuesFinalize, Step;
  }

  /**
   * Whenever a run of such an agent finalizes, the minute is one that the configuration
   * allows, and the update is safe to finalize.
   */
  lemma PeriodicFinalizeIsSafe(info: Info, fragments: seq<UpdateFragment>, run: Run, k: nat)
    requires Schedule(AllIntervals(fragments)).Ok?
    requires info.strategy == PeriodicSchedule(Schedule(AllIntervals(fragments)).value)
    requires run.Valid(info) && k < |run.inputs| && run.inputs[k].minute < MAX_WEEKLY_MINS
    requires IssuesFinalize(info, run.states[k], run.inputs[k])
    ensures ConfiguredMinute(fragments, run.inputs[k].minute)
    ensures exists i, j :: Staged(info, run, i, j, k, run.states[k].machine.release)
    ensures run.states[k].machine.release.payload !in Payloads(run.states[k].denylist)
  {
    PeriodicFinalizesExactly(info, fragments, run.states[k], run.inputs[k]);
    FinalizeIsSafe(info, run, k);
  }
}
