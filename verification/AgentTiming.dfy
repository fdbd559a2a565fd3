/** Retry and grace-period counting, and the pace of ticks. */
module AgentTiming {
  import opened Wrappers
  import opened Releases
  import opened ReleaseSets
  import opened Strategy
  import opened UpdateAgent
  import opened AgentRuns
  import opened AgentTicks

  // ---------- Failed deploy attempts ----------

  /** Ticks `lo` up to `hi` all try to stage `r` and fail, counting from zero. */
  ghost predicate FailsDuring(info: Info, run: Run, lo: nat, hi: nat, r: Release)
    requires hi <= |run.inputs| < |run.states|
  {
    forall m | lo <= m < hi ::
      (run.states[m].machine.UpdateAvailable?
       && run.states[m].machine.release == r
       && run.states[m].machine.failures == m - lo
       && StageOutcome(info, run.inputs[m], r).Err?)
  }

  /** The failure counter counts the failed attempts in a row since the update was selected. */
  lemma {:induction false} CounterCountsFailures(info: Info, run: Run, k: nat)
    requires run.Valid(info) && k < |run.states| && run.states[k].machine.UpdateAvailable?
    ensures var f := run.states[k].machine.failures;
            && f < k && f < MAX_DEPLOY_ATTEMPTS
            && FailsDuring(info, run, k - f, k, run.states[k].machine.release)
            && Selects(info, run.states[k - f - 1], run.inputs[k - f - 1], run.states[k].machine.release)
  {
    hide Step, StageOutcome, Selects;
    assert run.TickAt(info, k - 1);
    RunIsSound(info, run, k);
    AvailableAfterStep(info, run.states[k - 1], run.inputs[k - 1]);
    if run.states[k - 1].machine.UpdateAvailable? {
      CounterCountsFailures(info, run, k - 1);
    }
  }

  /**
   * An update is abandoned for failing exactly at the twelfth failed attempt in a row, the
   * attempts starting with the tick after the one that selected it.
   */
  lemma AbandonedAfterTwelve(info: Info, run: Run, k: nat)
    requires run.Valid(info) && k < |run.inputs| && run.states[k].machine.UpdateAvailable?
    requires StageOutcome(info, run.inputs[k], run.states[k].machine.release).Err?
    ensures var r := run.states[k].machine.release;
            run.states[k + 1].machine == NoNewUpdate <==>
              && k >= 12 && FailsDuring(info, run, k - 11, k + 1, r)
              && Selects(info, run.states[k - 12], run.inputs[k - 12], r)
    ensures run.states[k + 1].denylist == run.states[k].denylist
  {
    hide StageOutcome, Selects, Insert, CanFinalize;
    CounterCountsFailures(info, run, k);
    assert run.TickAt(info, k);
  }

  // ---------- The grace period ----------

  /** The state after some ticks. */
  function StepMany(info: Info, s: AgentState, ticks: seq<Inputs>): AgentState {
    if ticks == [] then s else Step(info, StepMany(info, s, ticks[..|ticks| - 1]), ticks[|ticks| - 1])
  }

  /** The states of a run are those after its ticks. */
  lemma {:induction false} RunIsStepMany(info: Info, run: Run, k: nat)
    requires run.Valid(info) && k < |run.states|
    ensures run.states[k] == StepMany(info, INITIAL_STATE, run.inputs[..k])
  {
    hide Step;
    if k > 0 {
      RunIsStepMany(info, run, k - 1);
      assert run.TickAt(info, k - 1);
      assert run.inputs[..k][..k - 1] == run.inputs[..k - 1];
    }
  }

  /** Any ticks make a run. */
  lemma {:induction false} TicksMakeRun(info: Info, ticks: seq<Inputs>) returns (run: Run)
    ensures run.Valid(info) && run.inputs == ticks && run.states[|ticks|] == StepMany(info, INITIAL_STATE, ticks)
  {
    hide Step;
    if ticks == [] {
      run := Run([INITIAL_STATE], []);
    } else {
      var last := |ticks| - 1;
      var before := TicksMakeRun(info, ticks[..last]);
      run := Run(before.states + [StepMany(info, INITIAL_STATE, ticks)], ticks);
      forall i | 0 <= i < |ticks| ensures run.TickAt(info, i) {
        if i < last {
          assert before.TickAt(info, i);
          assert ticks[i] == ticks[..last][i];
        }
      }
    }
  }

  /** The pause after a tick, in seconds; none when the next tick follows at once. */
  function PauseAfter(info: Info, s: AgentState, inputs: Inputs): Option<uint64> {
    RefreshDelay(info.steadyInterval, s.machine, Step(info, s, inputs).machine, inputs.draw)
  }

  function Seconds(pause: Option<uint64>): nat {
    if pause.Some? then pause.value else 0
  }

  /** The pauses after some ticks, added up. */
  function TotalPause(info: Info, s: AgentState, ticks: seq<Inputs>): nat {
    if ticks == [] then 0
    else
      var before := ticks[..|ticks| - 1];
      TotalPause(info, s, before) + Seconds(PauseAfter(info, StepMany(info, s, before), ticks[|ticks| - 1]))
  }

  /** The strategy allows finalization, but users are logged in and not overridden. */
  predicate UsersWait(info: Info, inputs: Inputs) {
    && CanFinalize(info.strategy, inputs.minute, inputs.lockReply)
    && SessionCount(inputs) > 0
    && !inputs.overridden
  }

  lemma OnePostponement(info: Info, s: AgentState, inputs: Inputs)
    requires s.machine.UpdateStaged? && 0 < s.machine.postponements <= MAX_FINALIZE_POSTPONEMENTS
    requires UsersWait(info, inputs)
    ensures Step(info, s, inputs) == s.(machine := UpdateStaged(s.machine.release, s.machine.postponements - 1))
    ensures PauseAfter(info, s, inputs) == Some(60)
    ensures !IssuesFinalize(info, s, inputs)
  {
    hide CanFinalize;
  }

  /**
   * While users stay logged in, each tick uses up one postponement and waits one minute;
   * finalization is issued at the first tick without postponements left, and not before.
   */
  lemma {:induction false} GracePeriod(info: Info, s: AgentState, ticks: seq<Inputs>, p: uint8)
    requires s.machine.UpdateStaged? && s.machine.postponements == p <= MAX_FINALIZE_POSTPONEMENTS
    requires |ticks| <= p && forall t | t in ticks :: UsersWait(info, t)
    ensures StepMany(info, s, ticks) == s.(machine := UpdateStaged(s.machine.release, p - |ticks|))
    ensures TotalPause(info, s, ticks) == 60 * |ticks|
    ensures forall next | UsersWait(info, next) ::
              IssuesFinalize(info, StepMany(info, s, ticks), next) <==> |ticks| == p
  {
    if ticks != [] {
      var last := |ticks| - 1;
      assert ticks == ticks[..last] + [ticks[last]];
      GracePeriod(info, s, ticks[..last], p);
      hide Step;
      OnePostponement(info, StepMany(info, s, ticks[..last]), ticks[last]);
    }
    hide CanFinalize, UsersWait;
    WaitingUsersMean(info);
  }

  lemma WaitingUsersMean(info: Info)
    ensures forall next | UsersWait(info, next) ::
              CanFinalize(info.strategy, next.minute, next.lockReply) && SessionCount(next) > 0 && !next.overridden
  {
  }

  /**
   * Every delay announced to waiting users is the time they really have: the un-jittered
   * pauses until the forced finalization add up to it.
   */
  lemma AnnouncementIsHonest(info: Info, s: AgentState, ticks: seq<Inputs>)
    requires s.machine.UpdateStaged? && s.machine.postponements <= MAX_FINALIZE_POSTPONEMENTS
    requires |ticks| == s.machine.postponements && forall t | t in ticks :: UsersWait(info, t)
    requires Announcement(s.machine, false).Some?
    ensures TotalPause(info, s, ticks) == Announcement(s.machine, false).value
    ensures forall next | UsersWait(info, next) :: IssuesFinalize(info, StepMany(info, s, ticks), next)
  {
    GracePeriod(info, s, ticks, s.machine.postponements);
  }

  /** A delay is announced at the first of the postponements and at the last, and at no other; none with permission. */
  lemma AnnouncedExactly(release: Release, postponements: uint8, permitted: bool)
    ensures Announcement(UpdateStaged(release, postponements), permitted) ==
            if !permitted && postponements == 10 then Some(600)
            else if !permitted && postponements == 1 then Some(60)
            else None
  {
  }

  /** The strategy consents, and finalizing fails. */
  predicate FailsToFinalize(info: Info, inputs: Inputs) {
    CanFinalize(info.strategy, inputs.minute, inputs.lockReply) && !inputs.finalized
  }

  /**
   * Once no postponement is left, every tick with consent issues finalization until one
   * succeeds: failures change nothing, and bring no postponement back.
   */
  lemma {:induction false} RetriesUntilFinalized(info: Info, s: AgentState, ticks: seq<Inputs>, next: Inputs)
    requires s.machine.UpdateStaged? && s.machine.postponements == 0
    requires forall t | t in ticks :: FailsToFinalize(info, t)
    requires CanFinalize(info.strategy, next.minute, next.lockReply)
    ensures StepMany(info, s, ticks) == s
    ensures IssuesFinalize(info, StepMany(info, s, ticks), next)
    ensures StepMany(info, s, ticks + [next]) ==
            if next.finalized then s.(machine := UpdateFinalized(s.machine.release)) else s
  {
    assert (ticks + [next])[..|ticks|] == ticks;
    FinalizesExactly(info, s, next);
    if ticks != [] {
      var last := |ticks| - 1;
      assert ticks[..last] + [ticks[last]] == ticks && FailsToFinalize(info, ticks[last]);
      RetriesUntilFinalized(info, s, ticks[..last], ticks[last]);
    }
    hide Step, CanFinalize, IssuesFinalize, FailsToFinalize;
  }

  // ---------- The pace of ticks ----------

  /** Jitter never shortens a period, and lengthens it by a tenth or ten seconds at most. */
  lemma JitterBounds(seconds: uint64, draw: nat)
    requires draw <= 10
    ensures seconds <= AddJitter(seconds, draw) <= seconds + Max(seconds / 10, 10)
  {
    var unit := Max(seconds / 100, 1);
    assert unit * draw <= unit * 10;
  }

  /** Far enough from the largest number of seconds for nothing to saturate. */
  predicate Unsaturated(seconds: nat) {
    seconds <= U64_MAX / 2 - 10
  }

  /**
   * What a draw adds: nothing for the draw zero, and for every further draw the same, a
   * hundredth of the period rounded down, but a second at least.
   */
  lemma JitterExactly(seconds: nat, draw: nat)
    requires Unsaturated(seconds) && draw <= 10
    ensures AddJitter(seconds, 0) == seconds
    ensures var unit := AddJitter(seconds, 1) - seconds;
            && AddJitter(seconds, draw) == seconds + unit * draw
            && unit >= 1
            && (seconds < 200 ==> unit == 1)
            && (seconds >= 100 ==> 100 * unit <= seconds < 100 * (unit + 1))
  {
    var unit := Max(seconds / 100, 1);
    assert unit * draw <= unit * 10;
    assert unit * 1 == unit;
  }

  /** The greatest draw adds a tenth of a period, less ten seconds at most; and ten seconds to a period under a hundred. */
  lemma GreatestJitter(seconds: nat)
    requires Unsaturated(seconds)
    ensures seconds >= 100 ==> seconds / 10 - 10 < AddJitter(seconds, 10) - seconds <= seconds / 10
    ensures seconds < 100 ==> AddJitter(seconds, 10) == seconds + 10
  {
    JitterExactly(seconds, 10);
  }

  /** Jitter stays within a tenth of a period exactly when the period is a hundred seconds or more. */
  lemma JitterWithinTenthExactly(seconds: uint64)
    ensures (forall draw: nat | draw <= 10 :: AddJitter(seconds, draw) <= seconds + seconds / 10) <==> seconds >= 100
  {
    if seconds >= 100 {
      forall draw: nat | draw <= 10 ensures AddJitter(seconds, draw) <= seconds + seconds / 10 {
        JitterBounds(seconds, draw);
      }
    } else {
      var ten: nat := 10;
      assert AddJitter(seconds, ten) == seconds + 10;
    }
  }

  /** A polling interval of 35 seconds may become one of 45, ten seconds more where a tenth is three. */
  lemma ShortIntervalExceedsTenth()
    ensures AddJitter(35, 10) == 45 > 35 + 35 / 10
  {
  }

  /** A wait of the given length, with jitter. */
  predicate JitteredWait(pause: nat, seconds: nat) {
    seconds <= pause <= seconds + Max(seconds / 10, 10)
  }

  /**
   * How long a tick that is not followed at once is followed later: a minute after a
   * postponement, three hours at the end, the polling interval while polling, and five
   * minutes otherwise, all but the first with jitter. With a positive polling interval no
   * pause is empty.
   */
  lemma PauseRanges(info: Info, s: AgentState, inputs: Inputs)
    requires inputs.draw <= 10 && PauseAfter(info, s, inputs).Some?
    ensures var pause, machine := PauseAfter(info, s, inputs).value, Step(info, s, inputs).machine;
            && (info.steadyInterval > 0 ==> pause > 0)
            && match machine
               case UpdateStaged(_, postponements) =>
                 if postponements < MAX_FINALIZE_POSTPONEMENTS then pause == 60 else JitteredWait(pause, 300)
               case EndState => JitteredWait(pause, 10800)
               case ReportedSteady => JitteredWait(pause, info.steadyInterval)
               case NoNewUpdate => JitteredWait(pause, info.steadyInterval)
               case _ => JitteredWait(pause, 300)
  {
    hide Step;
    var (delay, jitter) := GetRefreshDelay(Step(info, s, inputs).machine, info.steadyInterval);
    JitterBounds(delay, inputs.draw);
  }

  lemma NoJitter(seconds: uint64)
    ensures AddJitter(seconds, 0) == seconds
  {
    var zero: nat := 0;
    assert Max(seconds / 100, 1) * zero == 0;
  }

  lemma DrawOnlyDelays(info: Info, s: AgentState, inputs: Inputs, draw: nat)
    ensures Step(info, s, inputs.(draw := draw)) == Step(info, s, inputs)
  {
  }

  /** The period of a state, in seconds. */
  function Period(info: Info, machine: MachineState): nat {
    match machine
    case UpdateStaged(_, postponements) => if postponements < 10 then 60 else 300
    case EndState => 10800
    case ReportedSteady => info.steadyInterval
    case NoNewUpdate => info.steadyInterval
    case _ => 300
  }

  /**
   * The draw zero gives the period of the state reached. Any other draw moves every pause
   * but the minute after a postponement, and moves it by the jitter of the period.
   */
  lemma DrawMovesExactly(info: Info, s: AgentState, inputs: Inputs)
    requires PauseAfter(info, s, inputs).Some?
    ensures var machine, still := Step(info, s, inputs).machine, PauseAfter(info, s, inputs.(draw := 0));
            && still == Some(Period(info, machine))
            && (Unsaturated(info.steadyInterval) && inputs.draw <= 10 ==>
                  PauseAfter(info, s, inputs).value ==
                  if machine.UpdateStaged? && machine.postponements < MAX_FINALIZE_POSTPONEMENTS then still.value
                  else AddJitter(still.value, inputs.draw))
  {
    DrawOnlyDelays(info, s, inputs, 0);
    hide Step, AddJitter;
    var (delay, jitter) := GetRefreshDelay(Step(info, s, inputs).machine, info.steadyInterval);
    NoJitter(delay);
  }

  /**
   * A tick is followed at once exactly when it changes the variant, unless it only finds nothing to
   * update to after reporting steady.
   */
  lemma FollowedAtOnceExactly(info: Info, s: AgentState, inputs: Inputs)
    ensures PauseAfter(info, s, inputs).None? <==>
              var edge := (VariantOf(s.machine), VariantOf(Step(info, s, inputs).machine));
              edge.0 != edge.1 && edge != (SSteady, SNoUpdate)
  {
    hide Step;
  }
}
