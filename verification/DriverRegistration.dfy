/** Registering as the update driver, with capped exponential backoff (src/rpm_ostree/cli_deploy.rs). */
module DriverRegistration {
  import opened Wrappers

  const MAX_RETRY_SECS: nat := 256

  function Power2(n: nat): nat {
    if n == 0 then 1 else 2 * Power2(n - 1)
  }

  function Sum(s: seq<nat>): nat {
    if s == [] then 0 else Sum(s[..|s| - 1]) + s[|s| - 1]
  }

  /**
   * Keep trying to register, for as long as there are outcomes of attempts: all of them up
   * to the first success, or any beginning of a loop that never succeeds. `sleeps` are the
   * pauses made, one after each failure.
   */
  method DeployRegisterDriver(outcomes: seq<bool>) returns (registered: bool, sleeps: seq<nat>)
    ensures |sleeps| <= |outcomes| && forall i: nat | i < |sleeps| :: !outcomes[i]
    ensures registered <==> |sleeps| < |outcomes|
    ensures registered ==> outcomes[|sleeps|]
    ensures forall i: nat | i < |sleeps| :: sleeps[i] == Min(Power2(i), MAX_RETRY_SECS)
  {
    FirstPower();
    hide Power2;
    sleeps := [];
    var tries: nat := 0;
    var retrySecs: nat := 1;
    while tries < |outcomes| && !outcomes[tries]
      invariant tries == |sleeps| <= |outcomes| && forall i: nat | i < tries :: !outcomes[i]
      invariant retrySecs == Min(Power2(tries), MAX_RETRY_SECS)
      invariant forall i: nat | i < tries :: sleeps[i] == Min(Power2(i), MAX_RETRY_SECS)
    {
      sleeps := sleeps + [retrySecs];
      tries := tries + 1;
      CappedDoubling(tries);
      if retrySecs < MAX_RETRY_SECS {
        retrySecs := retrySecs * 2;
      }
    }
    registered := tries < |outcomes|;
  }

  lemma FirstPower()
    ensures Min(Power2(0), MAX_RETRY_SECS) == 1
  {
  }

  /** Doubling stops exactly at the cap, because the cap is a power of two. */
  lemma CappedDoubling(n: nat)
    requires n > 0
    ensures var before := Min(Power2(n - 1), MAX_RETRY_SECS);
            Min(Power2(n), MAX_RETRY_SECS) == if before < MAX_RETRY_SECS then before * 2 else before
  {
    if n <= 8 {
      PowerBelowCap(n - 1);
    } else {
      PowerAboveCap(n - 1);
    }
  }

  lemma PowerBelowCap(n: nat)
    requires n <= 8
    ensures Power2(n) * Power2(8 - n) == 256 && Power2(n) <= 256 && (n < 8 ==> Power2(n) <= 128)
  {
    assert Power2(0) == 1 && Power2(1) == 2 && Power2(2) == 4 && Power2(3) == 8 && Power2(4) == 16;
    assert Power2(5) == 32 && Power2(6) == 64 && Power2(7) == 128 && Power2(8) == 256;
  }

  lemma {:induction false} PowerAboveCap(n: nat)
    requires n >= 8
    ensures Power2(n) >= 256
  {
    if n > 8 {
      PowerAboveCap(n - 1);
    } else {
      PowerBelowCap(8);
    }
  }

  /** One more pause brings the closed form of the total one step further. */
  lemma OneMorePause(n: nat)
    requires n > 0
    ensures TotalAfter(n) == TotalAfter(n - 1) + Min(Power2(n - 1), MAX_RETRY_SECS)
  {
    if n <= 9 {
      PowerBelowCap(n - 1);
    } else {
      PowerAboveCap(n - 1);
      PowerBelowCap(8);
      assert Power2(9) == 512;
    }
  }

  function TotalAfter(failures: nat): int {
    if failures <= 9 then Power2(failures) - 1 else 511 + 256 * (failures - 9)
  }

  /** The total time slept after any number of failures, in closed form. */
  lemma {:induction false} TotalSleep(sleeps: seq<nat>)
    requires forall i: nat | i < |sleeps| :: sleeps[i] == Min(Power2(i), MAX_RETRY_SECS)
    ensures Sum(sleeps) == TotalAfter(|sleeps|)
  {
    if sleeps != [] {
      TotalSleep(sleeps[..|sleeps| - 1]);
      OneMorePause(|sleeps|);
    }
  }
}
