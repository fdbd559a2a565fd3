/**
 * Consent to finalize and the report of steady state, by strategy
 * (src/strategy/mod.rs, src/strategy/fleet_lock.rs, src/strategy/immediate.rs,
 * src/strategy/periodic.rs, and the client in src/fleet_lock/mod.rs).
 */
module Strategy {
  import opened Wrappers
  import opened WeeklyCalendars

  /** What came of one request to the lock manager. */
  datatype HttpOutcome = NotBuilt | NotSent | Response(status: nat) {
    /** Any 2xx status counts as success. */
    predicate IsSuccess() {
      Response? && 200 <= status < 300
    }
  }

  datatype LockError = FailedClientBuilder | FailedRequest | Rejected(status: nat)

  datatype UpdateStrategy = FleetLock | Immediate | PeriodicSchedule(schedule: WeeklyCalendar)

  /** The client's result for either request: true on success, otherwise an error, never false. */
  function LockResult(outcome: HttpOutcome): Result<bool, LockError> {
    match outcome
    case NotBuilt => Err(FailedClientBuilder)
    case NotSent => Err(FailedRequest)
    case Response(status) => if outcome.IsSuccess() then Ok(true) else Err(Rejected(status))
  }

  /** An error is a denial. */
  function OrDenied(answer: Result<bool, LockError>): bool {
    answer.Ok? && answer.value
  }

  /** Whether finalization is allowed, given the minute of the week and the outcome of a pre-reboot request. */
  function CanFinalize(strategy: UpdateStrategy, minute: nat, outcome: HttpOutcome): bool {
    OrDenied(
      match strategy
      case FleetLock => LockResult(outcome)
      case Immediate => Ok(true)
      case PeriodicSchedule(schedule) => Ok(schedule.ContainsMinute(minute)))
  }

  /** Whether steady state is reached, given the outcome of a steady-state request. */
  function ReportSteady(strategy: UpdateStrategy, outcome: HttpOutcome): bool {
    OrDenied(
      match strategy
      case FleetLock => LockResult(outcome)
      case Immediate => Ok(true)
      case PeriodicSchedule(_) => Ok(true))
  }

  /** What the client reports of a request: success, or the way in which it failed, with the status of a rejection. */
  lemma LockResultExactly(outcome: HttpOutcome, status: nat)
    ensures LockResult(outcome) == Err(FailedClientBuilder) <==> outcome == NotBuilt
    ensures LockResult(outcome) == Err(FailedRequest) <==> outcome == NotSent
    ensures LockResult(outcome) == Err(Rejected(status)) <==> outcome == Response(status) && status / 100 != 2
    ensures LockResult(outcome).Ok? ==> LockResult(outcome).value
  {
  }

  /** When each strategy consents: a lock granted by a 2xx answer, always, or a minute of the schedule. */
  lemma ConsentExactly(strategy: UpdateStrategy, minute: nat, outcome: HttpOutcome)
    ensures CanFinalize(strategy, minute, outcome) <==>
            match strategy
            case FleetLock => outcome.Response? && outcome.status / 100 == 2
            case Immediate => true
            case PeriodicSchedule(schedule) => Covered(schedule.ranges, minute)
    ensures ReportSteady(strategy, outcome) <==> strategy.FleetLock? ==> outcome.Response? && outcome.status / 100 == 2
  {
  }
}
