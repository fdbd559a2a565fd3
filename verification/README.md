# Zincati, modelled and proved

Zincati is the auto-update agent of Fedora CoreOS. Each node asks an update graph for its
next release, stages that release, asks its update strategy for permission, waits for
logged-in users, and finalizes and reboots. This project states in Dafny what that agent
does and proves what it promises.

Verify with `dafny verify dfyconfig.toml`.

## What is modelled

**The update agent** (`UpdateAgent`, `Strategy`). `Step` gives the state after one refresh
tick, for any answers from rpm-ostree, the update graph, the strategy and the session list.
`UpdateAgentState` is the mutable state with its transition methods and tick handlers. Where
the source has an `assert!` or `unreachable!`, the method has a precondition; `RefreshTick`
has none, so no such failure can be reached. `AgentTicks` says what every tick does, branch by
branch and in terms of the graph. `AgentRuns` states what holds over whole runs,
`AgentTiming` is about counters and pauses, `BusyLoop` and `BusyLoopBound` about ticks that
follow at once, `DiagramEdges` about the state diagram read the other way round.
`AgentGuarantees` puts the agent together with its configuration and the system's status.

**A fleet** (`Fleet`, `FleetSafety`, `FleetExecutions`). Any number of agents of the fleet_lock
strategy against a counting semaphore with recursive, owned locks. A tick that calls the lock manager is split
into the call, its processing, its return, the look at the sessions and the result of
finalizing; other agents may act in between, calls may fail, answers may be lost. Agents may
restart at any point, booted into any release and with any configuration that keeps the
strategy.

**Update selection** (`Releases`, `ReleaseSets`, `UpdateGraph`, `UpdateSelection`,
`UpgradeChain`). The release order, which is coarser than equality; ordered sets built on it;
the walk over the graph; and repeated updates.

**The weekly calendar** (`WeeklyTime`, `WeeklyWindows`, `WeeklyCalendars`, `HumanDuration`,
`Periodic`, `ConfigInputs`, `ConfigMerge`). From configuration fragments to a schedule, its
measured length, its next window, and the texts announced.

**Around rpm-ostree** (`StatusCaches`, `DriverRegistration`). Local deployments, the status
cache kept by directory mtime, and the registration loop with capped backoff.

`Text`, `FiniteSets` and `Wrappers` are shared helpers.

## Assumptions

- Network: a lock-manager request is processed at most once, and never after the call that
  made it has returned or its agent has restarted; any response may be lost.
  `Fleet.LateUnlockBreaksBound` and `FleetExecutions.LateUnlockHappens` show that the slot
  bound needs this.
- The manager starts with at most as many holders as slots; it may remember earlier locks.
- A reader of image references is a parameter. Where deployments are matched to graph nodes
  over several updates, printing a parsed reference gives back the text of the graph
  (`ParserAgrees`), and nodes have distinct payload texts (`DistinctPayloads`).
- An image reference has a digest exactly when an at sign occurs in its text, and images of
  deployments have one (`src/rpm_ostree/cli_status.rs:124-135`). An image is only deployed by
  its digest (`src/rpm_ostree/cli_deploy.rs:110-131`) and over an image
  (`src/rpm_ostree/actor.rs:56-111`); a checksum is deployed over anything. The bound on ticks
  that follow at once needs the digests only, and the loops that exceed it are of systems that
  run an image.
- The deployment booted after an update carries the selected payload.
- Cache: every change of deployments moves the directory's mtime strictly forward, and the
  override file is fixed. `StatusCaches.UnmovedMtimeIsStale` shows why: a change that leaves the
  mtime alone makes the next hit stale.

## Where the code differs from its documentation

The model follows the code.

- The FleetLock protocol document calls 200 the only success (line 60); the client takes any
  2xx status (`src/fleet_lock/mod.rs:155-160`).
- The comment on `add_jitter` promises 0% to 10%. That holds exactly for periods of 100 seconds
  or more (`AgentTiming.JitterWithinTenthExactly`); a polling interval of 35 seconds may become
  45 (`AgentTiming.ShortIntervalExceedsTenth`).
- `weekday_from_string` spells the long name of Tuesday `tuesady`, so "Tuesday" is not parsed
  (`WeeklyTime.LongNameParsesExactly`).
- `parse_timespan` accepts hour 24, which `time_as_weekly_minute` takes for 23 while
  `start_minutes` does not. `WeeklyWindows.TimespanFitsWeek` says exactly when the windows
  still end with the week; the configuration's own times never have hour 24.
- Ordered sets compare releases by age index, version and payload text, while equality also
  sees whether an age index is there and all of the payload. So (a) a release that is
  abandoned for its stream is not added to a denylist that has one comparing equal to it, and
  the agent can then go round for ever without a pause; (b) a target can be filtered out
  because of a twin of the same text; (c) a local deployment can be missing from the initial
  denylist. Each is proved with its exact condition (`AgentRuns.WrongStreamBlocksExactly`,
  `UpdateSelection.DeniedForPayloadOrTwin`, `StatusCaches.ListedExactly`) and shown to happen
  (`Counterexamples.EndlessBusyLoop`, `Counterexamples.TwinHidesTarget`,
  `StatusCaches.TwinIsNotListed`). `BusyLoopBound.BoundExactly` says for which sets of payloads
  no agent can be kept busy, whatever reader of references it has.
- The wait until the next window is counted from the time in UTC, while the schedule and the next
  window are in the configured time zone (`src/strategy/periodic.rs:126-152`). The two agree at
  all times exactly when the schedule, moved by the zone's offset, allows the same minutes
  (`Periodic.AnnouncementsAgreeExactly`), that is, when it repeats with the greatest period that
  divides offset and week (`WeeklyCalendars.ZoneExactly`); a zone two hours ahead and a window on Monday at
  midnight do not (`Periodic.ZoneIsIgnored`). The text of the wait, `human_remaining`, is at
  present never shown: it stands behind the test at line 159 of that file, which always chooses
  the other text.

## Model

| member | source | states |
|---|---|---|
| Releases.CmpIsTotalPreorder | src/rpm_ostree/mod.rs:53-81 | the release comparison is reflexive, total and transitive, and both ways only for releases that compare equal |
| Releases.CmpEqualExactly | src/rpm_ostree/mod.rs:54-74 | releases compare equal exactly when age index (0 if absent), version and payload text coincide |
| Releases.CmpLessExactly | src/rpm_ostree/mod.rs:54-74 | the lesser release has the lower age index, at the same age the lexicographically preceding version, and then the preceding payload text |
| Releases.CmpTransitive | src/rpm_ostree/mod.rs:54-74 | transitivity, and that a chain is equal at its ends only if equal throughout |
| Releases.CmpReverse | src/rpm_ostree/mod.rs:54-74 | comparing the other way round gives the reverse |
| ReleaseSets.Insert | src/cincinnati/mod.rs:271-286 | insertion keeps the set strictly ascending, loses nothing and brings at most the new release |
| ReleaseSets.InsertExactly | src/update_agent/actor.rs:572 | the new release is dropped exactly when one comparing equal to it is in the set |
| ReleaseSets.Difference | src/cincinnati/mod.rs:289 | exactly the releases that compare equal to none of the others remain |
| UpdateGraph.BootedPosition | src/cincinnati/mod.rs:230-244 | the first node that describes the booted deployment, or none does |
| StatusCaches.BootedNodeExactly | src/cincinnati/mod.rs:230-244 | for a deployment of the status: the first node with its digest reference, or without one, with its image reference, base checksum or checksum, in that order |
| UpdateGraph.TargetPositions | src/cincinnati/mod.rs:261-271 | exactly the destinations of the edges that leave the booted node |
| UpdateGraph.FindDenylistedReleases | src/cincinnati/mod.rs:321-336 | the loop over the nodes collects the releases whose payload is denylisted |
| UpdateGraph.TargetReleases | src/cincinnati/mod.rs:272-286 | the loop over the targets collects their releases, or gives the error of the first bad one |
| UpdateGraph.FindUpdate | src/cincinnati/mod.rs:216-318 | the whole walk computes the selection that the lemmas below characterize |
| UpdateSelection.NodeReadsBack | src/rpm_ostree/mod.rs:85-121 | a release written as a node reads back as itself unless version or payload is empty, and the node matches exactly the deployments with that kind and text of payload |
| UpdateSelection.DeniedExactly | src/cincinnati/mod.rs:321-336 | a release is filtered out exactly when it compares equal to a release of the graph with a denylisted payload |
| UpdateSelection.UpdatesFailExactly | src/cincinnati/mod.rs:272-286 | collecting the targets fails exactly when some edge from the booted node ends outside the graph or at an unreadable node |
| UpdateSelection.SelectFailsExactly | src/cincinnati/mod.rs:216-318 | selection fails exactly when the booted node is in the graph and it, or one of its targets, is bad |
| UpdateSelection.FindFailsExactly | src/cincinnati/mod.rs:216-318 | that in terms of the graph: the booted node, or one it leads to, is missing, lacks version or payload, is of an unknown scheme, or has an unreadable reference or age index |
| UpdateSelection.NotInGraph | src/cincinnati/mod.rs:230-244 | a booted deployment that no node describes gets no update, whatever the settings |
| UpdateSelection.FirstBadDecides | src/cincinnati/mod.rs:272-286 | the first bad target in edge order decides the error: a lookup failure if it is missing, a parsing failure if it is unreadable |
| UpdateSelection.BadBootedNode | src/cincinnati/mod.rs:247-248 | an unreadable booted node is a parsing failure, whatever the targets are |
| UpdateSelection.NodeErrorExactly | src/rpm_ostree/mod.rs:85-115 | which check of a node fails first |
| UpdateSelection.SelectExactly | src/cincinnati/mod.rs:260-318 | the result is a target that is not denied and is the greatest of them, newer than the current one unless downgrades are allowed; nothing is selected exactly when no such target exists |
| UpdateSelection.SelectedIsNotDenylisted | src/cincinnati/mod.rs:260-318 | a selected release is in the graph and its payload is not denylisted, whatever texts coincide |
| UpdateSelection.DeniedForPayloadOrTwin | src/cincinnati/mod.rs:321-336 | a release is denied for its own payload or for a twin of the same text, and never for a twin when texts are distinct |
| UpdateSelection.NewerKeepsLast | src/cincinnati/mod.rs:302-315 | the releases above the current one are the end of the ordered set |
| UpdateSelection.DowngradeTestIsFilter | src/cincinnati/mod.rs:302-318 | with downgrades off, testing only the greatest target gives what filtering to newer targets first would give |
| UpgradeChain.UpgradeClimbs | src/cincinnati/mod.rs:230-318 | one update with downgrades off moves to a strictly greater release of the graph |
| UpgradeChain.ChainClimbs | src/cincinnati/mod.rs:230-318 | of any two deployments booted along a chain of updates the later one is strictly greater |
| UpgradeChain.UpgradesAreBounded | src/cincinnati/mod.rs:230-318 | a chain of updates is shorter than the number of nodes, and boots no payload twice |
| Counterexamples.TwinHidesTarget | src/cincinnati/mod.rs:289-306 | a concrete graph and status, with the booted deployment and a twin deployed, in which a target that is not denylisted is never offered |
| BusyLoopBound.UnblockedForever | src/update_agent/actor.rs:568-573 | an offered update on the wrong stream that stays unblocked makes every tick from the start follow at once |
| Counterexamples.DenylistIsListed | src/rpm_ostree/cli_status.rs:226-237 | the denylist of the two examples is what the agent lists at the start: the booted image and the twin |
| Counterexamples.EndlessBusyLoop | src/update_agent/actor.rs:568-573 | a concrete graph, status and plausible world of three payloads in which that happens: two images are deployed, and a checksum update of the text of one is offered |
| UpdateAgent.UpdateAgentState.constructor | src/update_agent/mod.rs:389-396 | an agent starts in the start state with an empty denylist |
| UpdateAgent.UpdateAgentState.BecomeInitialized | src/update_agent/mod.rs:137-148 | only from the start state, to initialized |
| UpdateAgent.UpdateAgentState.BecomeReportedSteady | src/update_agent/mod.rs:151-162 | only from initialized, to steady |
| UpdateAgent.UpdateAgentState.BecomeNoNewUpdate | src/update_agent/mod.rs:165-177 | only from steady or no update, to no update |
| UpdateAgent.UpdateAgentState.BecomeUpdateAvailable | src/update_agent/mod.rs:180-192 | only from steady or no update, to the update with no failures |
| UpdateAgent.UpdateAgentState.RecordFailedDeploy | src/update_agent/mod.rs:199-214 | one more failure for the same update, which is abandoned from the twelfth on |
| UpdateAgent.UpdateAgentState.BecomeUpdateStaged | src/update_agent/mod.rs:232-236 | to the staged update with all postponements |
| UpdateAgent.UpdateAgentState.HandleInteractiveSessions | src/update_agent/mod.rs:260-313 | who may finalize despite sessions, and which delay is broadcast; the state is only needed when sessions are waited for |
| UpdateAgent.UpdateAgentState.RecordPostponement | src/update_agent/mod.rs:317-328 | the same staged update with one postponement less, not below none |
| UpdateAgent.UpdateAgentState.TickInitialize | src/update_agent/actor.rs:269-297 | the start tick does what `Step` says |
| UpdateAgent.UpdateAgentState.TickReportSteady | src/update_agent/actor.rs:300-309 | the initialized tick does what `Step` says |
| UpdateAgent.UpdateAgentState.TickCheckUpdates | src/update_agent/actor.rs:312-336 | the polling tick does what `Step` says |
| UpdateAgent.UpdateAgentState.TickStageUpdate | src/update_agent/actor.rs:339-359 | the staging tick does what `Step` says, also after an error from confirming the stream, and has the deployment scrubbed exactly if it is from the wrong stream |
| UpdateAgent.UpdateAgentState.ConfirmValidStream | src/update_agent/actor.rs:556-583 | right stream: staged; wrong stream: scrubbed, abandoned and inserted into the denylist; error: nothing changed |
| UpdateAgent.UpdateAgentState.TickFinalizeUpdate | src/update_agent/actor.rs:362-402 | the finalizing tick does what `Step` says, finalizes exactly if strategy and sessions allow, and announces only delays of a postponement |
| UpdateAgent.UpdateAgentState.RefreshTick | src/update_agent/actor.rs:86-162 | from every state, a tick ends in the state and with the pause specified and tells whether the variant changed; no transition check can fail |
| Strategy.ConsentExactly | src/strategy/mod.rs:115-161 | fleet_lock consents exactly on a 2xx answer, immediate always, periodic exactly in a minute that its schedule covers; an error is a denial |
| Strategy.LockResultExactly | src/fleet_lock/mod.rs:109-167 | a request ends in success, a client that could not be built, a request that could not be sent, or a rejection with its status |
| AgentTicks.StartsExactly | src/update_agent/actor.rs:269-297 | a starting agent takes over the listed local deployments, if they could be listed, and goes on exactly if it is enabled |
| AgentTicks.SteadyExactly | src/update_agent/actor.rs:300-309 | an initialized agent becomes steady exactly if its strategy has no manager or the manager answers 2xx, and changes nothing otherwise |
| AgentTicks.PollsExactly | src/update_agent/actor.rs:312-336 | a polling tick takes exactly the release that the fetched graph gives for the agent's settings, and finds nothing exactly if it gives none |
| AgentTicks.TakesGreatest | src/cincinnati/mod.rs:230-318 | in terms of the graph: exactly if some candidate is newer than the current release, or any exists and downgrades are allowed, the tick goes for the greatest |
| AgentTicks.FindsNothing | src/cincinnati/mod.rs:133-152 | without a graph, without the booted deployment in it, or with a broken booted node or target, the tick finds nothing |
| AgentTicks.StagesExactly | src/update_agent/actor.rs:339-359 | a staging tick ends staged if the release is pending on the right stream, blocked if on another, and otherwise with one failure more or, at the twelfth, without the update |
| AgentTicks.FinalizesExactly | src/update_agent/actor.rs:362-402 | a finalizing tick: all postponements again without consent, one less while users are waited for, finalized on success, and nothing changed on failure |
| AgentTicks.EndsExactly | src/update_agent/actor.rs:405-410 | a finalized agent ends, and an ended one does nothing more |
| AgentRuns.HintIsSelected | src/cincinnati/mod.rs:133-152 | an update hint is always the selection from a fetched graph, with a payload that is not denylisted |
| AgentRuns.StepIsSound | src/update_agent/actor.rs:98-138 | every tick keeps the counters within bounds and the target out of the denylist |
| AgentRuns.RunIsSound | src/update_agent/actor.rs:86-162 | so they are in every reachable state: failures below 12, postponements at most 10 |
| AgentRuns.TickFollowsDiagram | docs/images/zincati-fsm.dot:18-36 | every tick follows an edge of the documented diagram, or changes nothing in the initialized or the end state |
| DiagramEdges.EveryEdgeIsFollowed | docs/images/zincati-fsm.dot:18-36 | every edge of the diagram is followed by some tick from a reachable state |
| AgentRuns.DisabledAgentEnds | src/update_agent/actor.rs:285-294 | an agent disabled by configuration stays in the end state from its first tick on |
| AgentRuns.AvailableOrigin | src/update_agent/actor.rs:312-359 | an available update was selected at an earlier tick and has been the available one since, with the same denylist |
| AgentRuns.StagedOrigin | src/update_agent/actor.rs:339-402 | a staged update was selected, then deployed and confirmed, and has been the staged one since |
| AgentRuns.FinalizeIsSafe | src/update_agent/actor.rs:362-402 | what is finalized was selected, confirmed pending with the same version and payload on the right stream, kept staged, and is not denylisted; and in this tick the strategy allows it and sessions are absent, overridden or out of postponements |
| AgentRuns.IssuedExactly | src/update_agent/actor.rs:362-402 | finalization is issued exactly if an update is staged, the strategy consents, and sessions are absent, overridden, not listed or out of postponements; and it ends in the finalized state exactly if it succeeds |
| AgentRuns.FinalizedWasIssued | src/update_agent/actor.rs:389-402 | the finalized state comes only from a finalization issued in the tick before, for the same release |
| AgentRuns.DenylistGrows | src/update_agent/actor.rs:269-280 | after initialization nothing leaves the denylist |
| AgentRuns.BlockedForever | src/update_agent/actor.rs:568-573 | a payload once denylisted is never again selected, staged or finalized |
| AgentRuns.InitialDeploymentsBlocked | src/update_agent/actor.rs:274-280 | that holds for all local deployments listed at the start |
| AgentGuarantees.FinalizedDeploymentsBlocked | src/update_agent/actor.rs:274-280 | so, with distinct texts, the payload of a finalized deployment of the status at the start is never a target |
| AgentRuns.WrongStreamBlocksExactly | src/update_agent/actor.rs:568-573 | abandoning for the wrong stream denylists the payload exactly when no denylisted release compares equal |
| AgentTiming.CounterCountsFailures | src/update_agent/mod.rs:194-221 | the failure counter is the number of failed attempts in a row since the tick that selected the update |
| AgentTiming.AbandonedAfterTwelve | src/update_agent/mod.rs:199-214 | a failed attempt abandons the update exactly if it is the twelfth in a row since it was selected |
| AgentTiming.RunIsStepMany | src/update_agent/actor.rs:86-162 | the states of a run are those after its ticks |
| AgentTiming.TicksMakeRun | src/update_agent/actor.rs:86-162 | any ticks make a run that ends in the state after them |
| AgentTiming.GracePeriod | src/update_agent/mod.rs:290-336 | while users stay and the strategy allows, every tick uses one postponement and a minute, and finalization is issued exactly when none is left |
| AgentTiming.AnnouncementIsHonest | src/update_agent/mod.rs:296-310 | each delay announced is the sum of the pauses until finalization is forced: 600 seconds at the start, 60 at the end |
| AgentTiming.AnnouncedExactly | src/update_agent/mod.rs:290-313 | 600 seconds are announced at the first postponement, 60 at the last, and nothing otherwise |
| AgentTiming.RetriesUntilFinalized | src/update_agent/actor.rs:389-401 | with no postponement left, every tick with consent issues finalization until one succeeds, and failures change nothing |
| AgentTiming.JitterBounds | src/update_agent/actor.rs:226-233 | jitter never shortens a period and adds at most a tenth of it or ten seconds |
| AgentTiming.JitterExactly | src/update_agent/actor.rs:226-233 | away from the largest number, the draw zero adds nothing, and each further one the same: a hundredth of the period rounded down, or a second |
| AgentTiming.GreatestJitter | src/update_agent/actor.rs:226-233 | the greatest draw adds a tenth, less ten seconds at most, and ten seconds to a period under a hundred |
| AgentTiming.JitterWithinTenthExactly | src/update_agent/actor.rs:222-233 | jitter stays within a tenth of the period, as documented, exactly if the period is 100 seconds or more |
| AgentTiming.ShortIntervalExceedsTenth | src/update_agent/actor.rs:222-233 | 35 seconds may become 45 |
| AgentTiming.PauseRanges | src/update_agent/mod.rs:354-371 | the range of the pause before the next tick, by the state reached |
| AgentTiming.DrawMovesExactly | src/update_agent/mod.rs:354-371 | the draw zero gives the period of the state reached, and any other moves exactly the pauses other than the minute after a postponement, by the jitter of that period |
| BusyLoop.StepIsConfined | src/update_agent/actor.rs:98-138 | if all payloads offered come from a set, targets and denylist stay within it |
| BusyLoop.RankChange | src/update_agent/actor.rs:206-220 | a tick that follows at once lowers the rank of the state, unless it abandons for the wrong stream |
| BusyLoop.PotentialChange | src/update_agent/actor.rs:187-220 | a tick that follows at once lowers the measure of offerable payloads and rank, any other raises it by two at most |
| BusyLoop.ImmediateTicksBounded | src/update_agent/actor.rs:187-220 | over any run, ticks that follow at once are at most eight, two per payload and two per pause, if abandoned updates get blocked |
| BusyLoop.ImmediateRunBounded | src/update_agent/actor.rs:187-220 | with distinct payload texts, ticks in a row that follow at once are at most eight and two per payload |
| BusyLoop.InjectiveTextsBlock | src/update_agent/actor.rs:568-573 | with distinct payload texts every abandoned update gets blocked |
| BusyLoop.UnblockedUpdateLoops | src/update_agent/actor.rs:568-573 | an update that is not blocked sends the agent round two ticks that follow at once and change nothing |
| BusyLoopBound.BoundExactly | src/update_agent/actor.rs:187-220 | over a set of payloads, the bound on ticks that follow at once holds of all agents, readers of references and plausible ticks, and of those that run an image, exactly if no two payloads share a text with a digest |
| BusyLoopBound.StepKeepsDigests | src/rpm_ostree/cli_deploy.rs:110-131 | as an image is only deployed by its digest, every image on the denylist has one |
| Fleet.ActionKeepsInv | docs/development/fleetlock/protocol.md:9-30 | every action of any agent or of the manager keeps the invariant of the fleet |
| Fleet.HoldersAreOwned | docs/development/fleetlock/protocol.md:21-22 | an action changes the slot of its own node only, and never fills more slots than there are |
| Fleet.SlotsBoundReboots | docs/development/fleetlock/protocol.md:24-30 | in every execution, over reboots into other releases and configurations, agents that have finalized and not yet asked to unlock all hold slots, so they are never more than the slots; an agent that polls holds none |
| Fleet.RebootNeedsGrant | src/update_agent/actor.rs:362-402 | finalization is issued only by the look at the sessions in a tick whose lock was granted and is still held, as the agent's own tick would; and nothing else makes an agent reboot |
| Fleet.DenialEndsTick | src/update_agent/actor.rs:366-376 | a denied, failed or lost pre-reboot call ends the tick without finalizing and restores all postponements |
| Fleet.ExecutionIsAgentRun | src/update_agent/actor.rs:86-162 | for each agent, a restart starts it afresh as booted and configured then, an action that ends a tick completes exactly that tick and leaves it idle, and every other action leaves its state alone |
| Fleet.FinalizeEndsTick | src/update_agent/actor.rs:389-401 | when finalizing returns, the update is finalized exactly if it succeeded, and staged as before otherwise |
| Fleet.TickGoesOnExactly | src/update_agent/actor.rs:366-389 | a tick goes on exactly after a granted pre-reboot request, and then exactly if the agent's own tick would issue finalization |
| Fleet.RebootingExactly | docs/development/fleetlock/protocol.md:24-30 | an agent counts as rebooting from issuing finalization to its next steady-state request, restarts included |
| Fleet.NothingGetsStuck | docs/development/fleetlock/protocol.md:13-22 | every agent can always go on, and be restarted with any configuration of the strategy |
| Fleet.ResponsesMayBeLost | docs/development/fleetlock/protocol.md:13-22 | a call can fail whether or not it was processed, and succeeds only if it was granted |
| Fleet.LateUnlockBreaksBound | docs/development/fleetlock/protocol.md:24-30 | if the slot of a rebooting agent is taken away, another agent can get it and reboot too |
| FleetExecutions.LateUnlockHappens | docs/development/fleetlock/protocol.md:24-30 | an execution in which an agent reboots with the only slot while an unlock request of it is left unprocessed; processing it then would let a second agent reboot (`FleetInputsGoWell` has such agents and answers) |
| FleetExecutions.RebootCompletes | docs/development/fleetlock/protocol.md:24-30 | an execution that goes from the lock through finalization and a restart with another configuration to the unlock, after which the slot is free |
| FleetSafety.AgentHasRun | src/update_agent/actor.rs:86-162 | at every point of an execution, an agent's state is the end of a run of its own, whose ticks are those it has completed since it last started |
| FleetSafety.FleetFinalizeIsSafe | src/update_agent/actor.rs:362-402 | whenever an agent of a fleet finalizes, it holds a slot within the bound, was granted in this tick, and finalizes a release selected, confirmed, kept staged and not denylisted in its own run |
| WeeklyTime.TimeAsWeeklyMinute | src/weekly/utils.rs:45-57 | a point in the week is always below a week's minutes, so the source's assertion holds |
| WeeklyTime.ClampExactly | src/weekly/utils.rs:45-57 | hours over 23 count as 23 and minutes over 59 as 59, and others as they are |
| WeeklyTime.TimeParsesExactly | src/weekly/utils.rs:101-117 | a text is a time exactly if it is two 8-bit numbers with one colon between them, an hour up to 23 and a minute up to 59 |
| WeeklyTime.SplitMinute | src/weekly/utils.rs:11-57 | splitting a minute of the week into day, hour and minute and recombining gives it back |
| WeeklyTime.PrintParseRoundTrip | src/strategy/periodic.rs:131-138 | a minute of the week, split, printed as the next window with the short day name, parsed back and recombined, is itself |
| WeeklyTime.ClockTextShape | src/strategy/periodic.rs:134-137 | the start of a window is written with the hour unpadded and the minute in two digits |
| WeeklyTime.WeekdayParsesExactly | src/weekly/utils.rs:72-85 | exactly the short and long names, in any case, name a day, the long one of Tuesday as it is misspelled |
| WeeklyTime.LowercaseExactly | src/weekly/utils.rs:73 | lower-casing turns capital letters into their small ones and changes nothing else |
| WeeklyTime.LongNameParsesExactly | src/weekly/utils.rs:72-85 | the long names of all days parse, but not that of Tuesday |
| WeeklyWindows.WeeklyWindow.StartMinutes | src/weekly/mod.rs:327-336 | no saturating step of the start saturates |
| WeeklyWindows.Carried | src/weekly/mod.rs:275-283 | the part past the week is less than the length, so subtracting it cannot underflow |
| WeeklyWindows.ParseTimespan | src/weekly/mod.rs:258-308 | computes the windows that the lemmas below characterize |
| WeeklyWindows.TimespanConserved | src/weekly/mod.rs:258-308 | parsing succeeds exactly for a valid start and length, with one or two windows whose lengths sum to the length |
| WeeklyWindows.LengthRoundsDown | src/weekly/mod.rs:311-314 | a length in minutes is that in seconds, rounded down |
| WeeklyWindows.TimespanRanges | src/weekly/mod.rs:273-344 | start, length and end of each window of a timespan of whole minutes, in closed form |
| WeeklyWindows.TimespanFitsWeek | src/weekly/mod.rs:258-308 | windows of whole minutes are at least a minute long, sum up, and end within the week exactly if the hour is a clock hour or the end of the week is not reached |
| WeeklyCalendars.WeeklyCalendar.LengthMinutes | src/weekly/mod.rs:162-191 | the coalescing loop returns the number of minutes that are covered together with the next one |
| WeeklyCalendars.ClosedRun | src/weekly/mod.rs:172-188 | closing a run adds one less than the minutes it covers, and no saturating operation saturates |
| WeeklyCalendars.MeasuredIsCoveredLessRuns | src/weekly/mod.rs:162-191 | the measured length is the covered minutes less one for each maximal covered run |
| WeeklyCalendars.LengthIgnoresOrder | src/weekly/mod.rs:162-191 | it depends on which ranges there are, not on order or repetition |
| WeeklyCalendars.LengthWithinWeek | src/weekly/mod.rs:317-324 | ranges that end with the week measure at most a week |
| WeeklyCalendars.TouchingIsOneLonger | src/weekly/mod.rs:170-181 | two windows that touch are measured a minute longer than their lengths together |
| WeeklyCalendars.FirstFromIsFirst | src/weekly/mod.rs:74-81 | the search finds the earliest start at or after the minute, or there is none |
| WeeklyCalendars.SearchesAreShortest | src/weekly/mod.rs:59-130 | the remaining time is the least wait that reaches a window going round the week, under a week, and the next window starts where that wait ends |
| WeeklyCalendars.SearchesIgnoreRanges | src/weekly/mod.rs:59-130 | wait and next window depend on nothing but which minutes of the week are covered |
| WeeklyCalendars.WaitsAgreeExactly | src/weekly/mod.rs:97-130 | the waits from a minute and from the one an offset later agree for all minutes exactly if coverage is the same moved by the offset |
| WeeklyCalendars.ZoneExactly | src/strategy/periodic.rs:126-152 | coverage is the same moved by an offset exactly if it repeats with the greatest period that divides offset and week |
| HumanDuration.HumanRemainingReadsBack | src/weekly/mod.rs:133-154 | the printed wait reads back as the minutes modulo a week, so exactly for every wait under a week |
| HumanDuration.TextShape | src/weekly/mod.rs:133-154 | "now", or the parts after "in", without hours under an hour and without days under a day |
| Periodic.New | src/strategy/periodic.rs:47-73 | the strategy is built with the schedule that the lemmas below characterize, or fails with its error |
| Periodic.CalendarIsValid | src/weekly/mod.rs:39-47 | a calendar stores exactly the ranges of its windows, ascending by start |
| Periodic.ScheduleExists | src/strategy/periodic.rs:47-73 | a schedule is built exactly when something is configured and every interval has a known day, a clock time and a length of a minute to a week |
| Periodic.ScheduleErrorExactly | src/strategy/periodic.rs:47-65 | a schedule fails for the first unusable interval, or for nothing being configured |
| Periodic.EntryErrorExactly | src/strategy/periodic.rs:52-55 | an interval fails by its day, then its time, then its length |
| Periodic.MeasuredUnlessEmpty | src/strategy/periodic.rs:60-65 | the measured length is zero only when no window is configured |
| Periodic.AllowedExactly | src/strategy/periodic.rs:50-59 | a minute is allowed exactly when some configured interval, counted on around the week, has it strictly inside or as its end, the latter unless it ends with the week |
| AgentGuarantees.PeriodicFinalizesExactly | src/update_agent/actor.rs:362-402 | an agent with the periodic strategy finalizes exactly if an update is staged, the minute is one that some configured interval allows, and nobody is to be waited for |
| AgentGuarantees.PeriodicFinalizeIsSafe | src/update_agent/actor.rs:362-402 | whenever a run of such an agent finalizes, that holds of the minute, and the update was selected, confirmed, kept staged and is not denylisted |
| Periodic.GroupingIrrelevant | src/config/inputs.rs:205-237 | reordering intervals or moving windows between fragments changes no answer: whether a schedule exists, which minutes it allows, its next window, the wait, its measured length |
| Periodic.AnnouncementsAreExact | src/strategy/periodic.rs:121-152 | for every schedule, time and zone: the next window is a minute of the week and the one reached by the shortest wait from the local minute, the wait is the shortest from the minute in UTC and its text reads back, and the length is at most a week |
| Periodic.AnnouncementsAgreeExactly | src/strategy/periodic.rs:126-152 | the wait counted from the local minute leads to the next window at all times exactly if the schedule moved by the zone's offset allows the same minutes |
| Periodic.ZoneIsIgnored | src/strategy/periodic.rs:126-152 | a schedule and a time at which, two hours ahead of UTC, a window has begun and two hours of waiting are announced |
| ConfigInputs.FromFragments | src/config/inputs.rs:193-246 | the merge loop gives each setting its last value or default, and all intervals in order |
| ConfigInputs.PushIntervals | src/config/inputs.rs:224-234 | one interval for every day of every window entry, in order |
| ConfigInputs.LastSetExactly | src/config/inputs.rs:205-237 | a setting that nothing later makes again is the merged one |
| ConfigInputs.SettingsExactly | src/config/inputs.rs:205-245 | each merged setting is the one of the last fragment that makes that setting |
| ConfigInputs.UnsetExactly | src/config/inputs.rs:193-203 | what nobody sets: no downgrades, enabled, no strategy, no manager, no intervals, UTC |
| ConfigInputs.IntervalsInOrder | src/config/inputs.rs:224-234 | intervals come in the order of fragments, entries and days |
| ConfigInputs.FieldOverrides | src/config/inputs.rs:205-237 | later fragments decide a setting exactly when one of them makes it |
| ConfigInputs.MergeInStages | src/config/inputs.rs:193-246 | merging some fragments and then the rest over the result is merging them all |
| ConfigInputs.IntervalsExactly | src/config/inputs.rs:220-236 | the merged intervals are exactly those that some fragment configures |
| ConfigMerge.MergeFragments | src/config/inputs.rs:44-71 | collecting stanzas and merging each kind gives every setting of the last fragment that makes it |
| ConfigMerge.StanzasExactly | src/config/inputs.rs:80-149 | every setting outside the updates stanza is the one of the last fragment that makes it, read from that fragment |
| ConfigMerge.UnsetStanzas | src/config/inputs.rs:80-149 | what nobody sets: a polling interval of 300 seconds, and nothing else |
| ConfigMerge.AgentFromFragments | src/config/inputs.rs:81-96 | the polling interval is the last one set, or 300 seconds; it is never zero |
| ConfigMerge.CincinnatiFromFragments | src/config/inputs.rs:106-118 | the graph's base URL is the last one set, or empty |
| ConfigMerge.IdentityFromFragments | src/config/inputs.rs:129-149 | each identity setting is the last one set, or its default |
| ConfigMerge.LaterFragmentsOverride | src/config/inputs.rs:44-71 | fragments read later override those read before, in every stanza |
| StatusCaches.ParseLocalDeployments | src/rpm_ostree/cli_status.rs:226-237 | the loop collects the deployments that count into an ordered set |
| StatusCaches.ListedExactly | src/rpm_ostree/cli_status.rs:226-237 | a deployment that counts is listed unless an earlier one that counts compares equal to it |
| StatusCaches.FinalizedPayloadsListed | src/update_agent/actor.rs:442-456 | with distinct texts, the initial denylist has exactly the payloads of the finalized local deployments |
| StatusCaches.TwinIsNotListed | src/rpm_ostree/cli_status.rs:226-237 | without that, the payload of a finalized deployment is missing from it |
| StatusCaches.RpmOstreeClient.GetStatus | src/rpm_ostree/cli_status.rs:265-287 | answers and cache after one request, in terms of the mtime read and the query if one is needed |
| StatusCaches.CacheHoldsAnswer | src/rpm_ostree/cli_status.rs:271-286 | after an answer the cache holds it at the mtime read; a failed request leaves the cache alone |
| StatusCaches.FailsExactly | src/rpm_ostree/cli_status.rs:266-283 | a request fails exactly without the mtime, or when the query is needed and fails |
| StatusCaches.ShownExactly | src/rpm_ostree/cli_status.rs:318-340 | an override replaces booted deployments only, in their places |
| StatusCaches.CacheAgrees | src/rpm_ostree/cli_status.rs:265-287 | a cache hit is what a fresh query would show at the moment of the mtime read, even if changes fell between the read and the query that filled the cache |
| DriverRegistration.DeployRegisterDriver | src/rpm_ostree/cli_deploy.rs:54-67 | for any outcomes, the loop ends with the first success and otherwise goes on, and the pause after the i-th failure is 2^(i-1) seconds, at most 256 |
| DriverRegistration.CappedDoubling | src/rpm_ostree/cli_deploy.rs:63-65 | doubling below the cap is taking the least of the next power and the cap |
| DriverRegistration.TotalSleep | src/rpm_ostree/cli_deploy.rs:56-66 | n failures sleep 2^n - 1 seconds for n up to 9, and 511 + 256(n - 9) beyond |

## Left out

- HTTP, JSON, TOML and D-Bus, command lines and their output, metrics, MOTD files, systemd notifications and log text: their results are inputs.
- The actor runtime: one agent's ticks run one after the other under a lock, so a tick is a step.
- The interval tree: a calendar is its contents in iteration order, with point queries; the window kept beside each range, which is only read for serialization, is not modelled.
- Reading and printing OCI references: library code, a parameter of the model.
- Node metadata other than the payload scheme and the age index, and with it the dead-end status.
- The clock: a tick tells whether the state changed, not the times of the last refresh and the last change.
- What scrubbing a pending deployment does: its errors are only logged.
- `UpdateAgent.UpdateAgentState.HandleInteractiveSessions`: gives the delay that is broadcast, not the text nor the terminals it is written to.
- `StatusCaches.RpmOstreeClient.GetStatus`: the status is shared by reference in the source; the model has values, which nothing changes.
- Error texts of the parsers.
- `WeeklyWindows.ParseTimespan`: lengths are whole seconds; the source never builds others.
- `ConfigMerge.IdentityFromFragments`: the rollout wariness is carried as a real number and never computed with.
- `ConfigInputs.FromFragments`: the days of a window entry are given in the order in which the source's set visits them.
- How a pending deployment and its stream are read from the status, and the choice between deploying and rebasing: both are part of the answers that a tick gets.
- Time zones and daylight saving, but for an offset of whole minutes between the minute in UTC and the local one.
- Fleets whose nodes change to another strategy when they restart.
- The summary text of a calendar: its condition on the time zone's name is always true, so of its two texts `human_remaining` is never used.
- The random source of the jitter: any number from 0 to 10.
- Lower-casing of letters outside ASCII: it never turns a text into the name of a day.
