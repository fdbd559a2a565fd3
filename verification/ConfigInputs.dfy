/** Merging configuration fragments (src/config/inputs.rs, src/config/fragments.rs). */
module ConfigInputs {
  import opened Wrappers

  /** A `periodic.window` entry; the days are in the order in which they are visited. */
  datatype UpdatePeriodicWindow = UpdatePeriodicWindow(days: seq<string>, startTime: string, lengthMinutes: uint32)

  datatype UpdatePeriodic = UpdatePeriodic(windows: Option<seq<UpdatePeriodicWindow>>, timeZone: Option<string>)

  datatype UpdateFleetLock = UpdateFleetLock(baseUrl: Option<string>)

  datatype UpdateFragment = UpdateFragment(
    allowDowngrade: Option<bool>,
    enabled: Option<bool>,
    strategy: Option<string>,
    fleetLock: Option<UpdateFleetLock>,
    periodic: Option<UpdatePeriodic>)
  {
    function BaseUrl(): Option<string> {
      if fleetLock.Some? then fleetLock.value.baseUrl else None
    }

    function TimeZone(): Option<string> {
      if periodic.Some? then periodic.value.timeZone else None
    }

    function Windows(): seq<UpdatePeriodicWindow> {
      if periodic.Some? && periodic.value.windows.Some? then periodic.value.windows.value else []
    }
  }

  /** One weekly interval of the periodic strategy. */
  datatype PeriodicIntervalInput = PeriodicIntervalInput(startDay: string, startTime: string, lengthMinutes: uint32)

  datatype UpdateInput = UpdateInput(
    allowDowngrade: bool,
    enabled: bool,
    strategy: string,
    baseUrl: string,
    intervals: seq<PeriodicIntervalInput>,
    timeZone: string)

  /** The value that the last fragment setting a field gives it, or the default. */
  function LastSet<F, T>(fragments: seq<F>, field: F -> Option<T>, default: T): T {
    if fragments == [] then default
    else
      var last := field(fragments[|fragments| - 1]);
      if last.Some? then last.value else LastSet(fragments[..|fragments| - 1], field, default)
  }

  /** The intervals of one window entry, one for each of its first `k` days. */
  function DayIntervals(entry: UpdatePeriodicWindow, k: nat): seq<PeriodicIntervalInput>
    requires k <= |entry.days|
  {
    seq(k, i requires 0 <= i < k => PeriodicIntervalInput(entry.days[i], entry.startTime, entry.lengthMinutes))
  }

  function WindowIntervals(windows: seq<UpdatePeriodicWindow>): seq<PeriodicIntervalInput> {
    if windows == [] then []
    else
      var last := windows[|windows| - 1];
      WindowIntervals(windows[..|windows| - 1]) + DayIntervals(last, |last.days|)
  }

  /** The intervals of all fragments, accumulated in order. */
  function AllIntervals(fragments: seq<UpdateFragment>): seq<PeriodicIntervalInput> {
    if fragments == [] then []
    else
      var last := |fragments| - 1;
      AllIntervals(fragments[..last]) + WindowIntervals(fragments[last].Windows())
  }

  /** The settings in force when no fragment sets anything. */
  const DEFAULT_INPUT := UpdateInput(false, true, "", "", [], "UTC")

  /** Fragments merged over settings already in force. */
  function MergedOnto(base: UpdateInput, fragments: seq<UpdateFragment>): UpdateInput {
    UpdateInput(
      LastSet(fragments, (f: UpdateFragment) => f.allowDowngrade, base.allowDowngrade),
      LastSet(fragments, (f: UpdateFragment) => f.enabled, base.enabled),
      LastSet(fragments, (f: UpdateFragment) => f.strategy, base.strategy),
      LastSet(fragments, (f: UpdateFragment) => f.BaseUrl(), base.baseUrl),
      base.intervals + AllIntervals(fragments),
      LastSet(fragments, (f: UpdateFragment) => f.TimeZone(), base.timeZone))
  }

  function Set<T>(setting: Option<T>, current: T): T {
    if setting.Some? then setting.value else current
  }

  /** What one more fragment does to the settings. */
  lemma MergeOneMore(base: UpdateInput, fragments: seq<UpdateFragment>, i: nat)
    requires i < |fragments|
    ensures var before, snip := MergedOnto(base, fragments[..i]), fragments[i];
            MergedOnto(base, fragments[..i + 1]) ==
            UpdateInput(
              Set(snip.allowDowngrade, before.allowDowngrade),
              Set(snip.enabled, before.enabled),
              Set(snip.strategy, before.strategy),
              Set(snip.BaseUrl(), before.baseUrl),
              before.intervals + WindowIntervals(snip.Windows()),
              Set(snip.TimeZone(), before.timeZone))
  {
    LastSetOneMore(fragments, (f: UpdateFragment) => f.allowDowngrade, base.allowDowngrade, i);
    LastSetOneMore(fragments, (f: UpdateFragment) => f.enabled, base.enabled, i);
    LastSetOneMore(fragments, (f: UpdateFragment) => f.strategy, base.strategy, i);
    LastSetOneMore(fragments, (f: UpdateFragment) => f.BaseUrl(), base.baseUrl, i);
    LastSetOneMore(fragments, (f: UpdateFragment) => f.TimeZone(), base.timeZone, i);
    IntervalsOneMore(fragments, i);
    ConcatAssociates(base.intervals, AllIntervals(fragments[..i]), WindowIntervals(fragments[i].Windows()));
  }

  lemma LastSetOneMore<F, T>(fragments: seq<F>, field: F -> Option<T>, default: T, i: nat)
    requires i < |fragments|
    ensures LastSet(fragments[..i + 1], field, default) ==
            Set(field(fragments[i]), LastSet(fragments[..i], field, default))
  {
    assert fragments[..i + 1][..i] == fragments[..i];
  }

  lemma IntervalsOneMore(fragments: seq<UpdateFragment>, i: nat)
    requires i < |fragments|
    ensures AllIntervals(fragments[..i + 1]) == AllIntervals(fragments[..i]) + WindowIntervals(fragments[i].Windows())
  {
    assert fragments[..i + 1][..i] == fragments[..i];
  }

  /** Merge update fragments: later settings win, intervals accumulate. */
  method FromFragments(fragments: seq<UpdateFragment>) returns (input: UpdateInput)
    ensures input == MergedOnto(DEFAULT_INPUT, fragments)
  {
    var allowDowngrade := false;
    var enabled := true;
    var strategy := "";
    var baseUrl := "";
    var intervals := [];
    var timeZone := "UTC";
    ghost var merged := DEFAULT_INPUT;
    assert merged == MergedOnto(DEFAULT_INPUT, fragments[..0]);
    for i := 0 to |fragments|
      invariant merged == MergedOnto(DEFAULT_INPUT, fragments[..i])
      invariant UpdateInput(allowDowngrade, enabled, strategy, baseUrl, intervals, timeZone) == merged
    {
      var snip := fragments[i];
      MergeOneMore(DEFAULT_INPUT, fragments, i);
      merged := MergedOnto(DEFAULT_INPUT, fragments[..i + 1]);
      if snip.allowDowngrade.Some? {
        allowDowngrade := snip.allowDowngrade.value;
      }
      if snip.enabled.Some? {
        enabled := snip.enabled.value;
      }
      if snip.strategy.Some? {
        strategy := snip.strategy.value;
      }
      if snip.fleetLock.Some? && snip.fleetLock.value.baseUrl.Some? {
        baseUrl := snip.fleetLock.value.baseUrl.value;
      }
      if snip.periodic.Some? {
        if snip.periodic.value.timeZone.Some? {
          timeZone := snip.periodic.value.timeZone.value;
        }
        if snip.periodic.value.windows.Some? {
          var pushed := PushIntervals(snip.periodic.value.windows.value);
          intervals := intervals + pushed;
        }
      }
    }
    assert fragments[..|fragments|] == fragments;
    return UpdateInput(allowDowngrade, enabled, strategy, baseUrl, intervals, timeZone);
  }

  /** Push one interval for every day of every entry. */
  method PushIntervals(windows: seq<UpdatePeriodicWindow>) returns (intervals: seq<PeriodicIntervalInput>)
    ensures intervals == WindowIntervals(windows)
  {
    intervals := [];
    for i := 0 to |windows|
      invariant intervals == WindowIntervals(windows[..i])
    {
      var entry := windows[i];
      ghost var before := intervals;
      for k := 0 to |entry.days|
        invariant intervals == before + DayIntervals(entry, k)
      {
        intervals := intervals + [PeriodicIntervalInput(entry.days[k], entry.startTime, entry.lengthMinutes)];
      }
      assert windows[..i + 1][..i] == windows[..i];
    }
    assert windows[..|windows|] == windows;
  }

  /** The merged value of a field: the last setting stands exactly when nothing after it sets the field. */
  lemma {:induction false} LastSetExactly<F, T>(fragments: seq<F>, field: F -> Option<T>, default: T, i: nat)
    requires i < |fragments| && field(fragments[i]).Some?
    requires forall j | i < j < |fragments| :: field(fragments[j]) == None
    ensures LastSet(fragments, field, default) == field(fragments[i]).value
  {
    if i < |fragments| - 1 {
      LastSetExactly(fragments[..|fragments| - 1], field, default, i);
    }
  }

  lemma {:induction false} LastSetSplits<F, T>(a: seq<F>, b: seq<F>, field: F -> Option<T>, default: T)
    ensures LastSet(a + b, field, default) == LastSet(b, field, LastSet(a, field, default))
  {
    if b == [] {
      assert a + b == a;
    } else {
      assert (a + b)[..|a + b| - 1] == a + b[..|b| - 1];
      LastSetSplits(a, b[..|b| - 1], field, default);
    }
  }

  lemma ConcatAssociates<T>(a: seq<T>, b: seq<T>, c: seq<T>)
    ensures (a + b) + c == a + (b + c)
  {
  }

  lemma {:induction false} IntervalsSplit(a: seq<UpdateFragment>, b: seq<UpdateFragment>)
    ensures AllIntervals(a + b) == AllIntervals(a) + AllIntervals(b)
  {
    if b == [] {
      assert a + b == a;
    } else {
      var last := |b| - 1;
      assert (a + b)[..|a + b| - 1] == a + b[..last];
      assert (a + b)[|a + b| - 1] == b[last];
      IntervalsSplit(a, b[..last]);
      ConcatAssociates(AllIntervals(a), AllIntervals(b[..last]), WindowIntervals(b[last].Windows()));
    }
  }

  /** Merging may be done in stages: the result of some fragments is the base for the rest. */
  lemma MergeInStages(base: UpdateInput, a: seq<UpdateFragment>, b: seq<UpdateFragment>)
    ensures MergedOnto(MergedOnto(base, a), b) == MergedOnto(base, a + b)
  {
    hide LastSet, AllIntervals;
    LastSetSplits(a, b, (f: UpdateFragment) => f.allowDowngrade, base.allowDowngrade);
    LastSetSplits(a, b, (f: UpdateFragment) => f.enabled, base.enabled);
    LastSetSplits(a, b, (f: UpdateFragment) => f.strategy, base.strategy);
    LastSetSplits(a, b, (f: UpdateFragment) => f.BaseUrl(), base.baseUrl);
    LastSetSplits(a, b, (f: UpdateFragment) => f.TimeZone(), base.timeZone);
    IntervalsSplit(a, b);
  }

  /** A later list of fragments decides a field exactly when one of them sets it. */
  lemma FieldOverrides<F, T>(a: seq<F>, b: seq<F>, field: F -> Option<T>, default: T)
    ensures LastSet(a + b, field, default) ==
            if exists f :: f in b && field(f).Some? then LastSet(b, field, default) else LastSet(a, field, default)
  {
    LastSetSplits(a, b, field, default);
    DefaultMatters(b, field, LastSet(a, field, default), default);
  }

  lemma {:induction false} DefaultMatters<F, T>(b: seq<F>, field: F -> Option<T>, d: T, e: T)
    ensures if exists f :: f in b && field(f).Some? then LastSet(b, field, d) == LastSet(b, field, e)
            else LastSet(b, field, d) == d
  {
    if b != [] {
      var last := |b| - 1;
      assert b == b[..last] + [b[last]];
      DefaultMatters(b[..last], field, d, e);
    }
  }

  predicate SetsDowngrade(f: UpdateFragment) {
    f.allowDowngrade.Some?
  }

  predicate SetsEnabled(f: UpdateFragment) {
    f.enabled.Some?
  }

  predicate SetsStrategy(f: UpdateFragment) {
    f.strategy.Some?
  }

  predicate SetsBaseUrl(f: UpdateFragment) {
    f.fleetLock.Some? && f.fleetLock.value.baseUrl.Some?
  }

  predicate SetsTimeZone(f: UpdateFragment) {
    f.periodic.Some? && f.periodic.value.timeZone.Some?
  }

  /** Fragment `i` is the last one that makes a setting. */
  ghost predicate IsLast(fragments: seq<UpdateFragment>, sets: UpdateFragment -> bool, i: nat) {
    i < |fragments| && sets(fragments[i]) && forall j | i < j < |fragments| :: !sets(fragments[j])
  }

  lemma LastStands<T>(
    fragments: seq<UpdateFragment>, field: UpdateFragment -> Option<T>, default: T, sets: UpdateFragment -> bool, i: nat)
    requires forall f :: sets(f) <==> field(f).Some?
    ensures IsLast(fragments, sets, i) ==> LastSet(fragments, field, default) == field(fragments[i]).value
  {
    if IsLast(fragments, sets, i) {
      LastSetExactly(fragments, field, default, i);
    }
  }

  /** Every merged setting is the one of the last fragment that makes it, read from that fragment. */
  lemma SettingsExactly(base: UpdateInput, fragments: seq<UpdateFragment>, i: nat)
    ensures var merged := MergedOnto(base, fragments);
            && (IsLast(fragments, SetsDowngrade, i) ==> merged.allowDowngrade == fragments[i].allowDowngrade.value)
            && (IsLast(fragments, SetsEnabled, i) ==> merged.enabled == fragments[i].enabled.value)
            && (IsLast(fragments, SetsStrategy, i) ==> merged.strategy == fragments[i].strategy.value)
            && (IsLast(fragments, SetsBaseUrl, i) ==> merged.baseUrl == fragments[i].fleetLock.value.baseUrl.value)
            && (IsLast(fragments, SetsTimeZone, i) ==> merged.timeZone == fragments[i].periodic.value.timeZone.value)
  {
    LastStands(fragments, (f: UpdateFragment) => f.allowDowngrade, base.allowDowngrade, SetsDowngrade, i);
    LastStands(fragments, (f: UpdateFragment) => f.enabled, base.enabled, SetsEnabled, i);
    LastStands(fragments, (f: UpdateFragment) => f.strategy, base.strategy, SetsStrategy, i);
    LastStands(fragments, (f: UpdateFragment) => f.BaseUrl(), base.baseUrl, SetsBaseUrl, i);
    LastStands(fragments, (f: UpdateFragment) => f.TimeZone(), base.timeZone, SetsTimeZone, i);
  }

  /** A setting that no fragment makes is the default. */
  lemma {:induction false} NobodySets<F, T>(fragments: seq<F>, field: F -> Option<T>, default: T)
    requires forall f | f in fragments :: field(f) == None
    ensures LastSet(fragments, field, default) == default
  {
    if fragments != [] {
      assert fragments[|fragments| - 1] in fragments;
      NobodySets(fragments[..|fragments| - 1], field, default);
    }
  }

  /** The settings that nobody makes: no downgrades, enabled, no strategy, no manager, no windows, and times in UTC. */
  lemma UnsetExactly(fragments: seq<UpdateFragment>)
    ensures var merged := MergedOnto(DEFAULT_INPUT, fragments);
            && ((forall f | f in fragments :: f.allowDowngrade == None) ==> merged.allowDowngrade == false)
            && ((forall f | f in fragments :: f.enabled == None) ==> merged.enabled == true)
            && ((forall f | f in fragments :: f.strategy == None) ==> merged.strategy == "")
            && ((forall f | f in fragments :: f.fleetLock == None || f.fleetLock.value.baseUrl == None) ==>
                  merged.baseUrl == "")
            && ((forall f | f in fragments :: f.periodic == None || f.periodic.value.timeZone == None) ==>
                  merged.timeZone == "UTC")
            && ((forall f | f in fragments :: f.periodic == None || f.periodic.value.windows == None) ==>
                  merged.intervals == [])
  {
    UnsetStays(fragments, (f: UpdateFragment) => f.allowDowngrade, false);
    UnsetStays(fragments, (f: UpdateFragment) => f.enabled, true);
    UnsetStays(fragments, (f: UpdateFragment) => f.strategy, "");
    UnsetStays(fragments, (f: UpdateFragment) => f.BaseUrl(), "");
    UnsetStays(fragments, (f: UpdateFragment) => f.TimeZone(), "UTC");
    NoWindows(fragments);
  }

  lemma UnsetStays<F, T>(fragments: seq<F>, field: F -> Option<T>, default: T)
    ensures (forall f | f in fragments :: field(f) == None) ==> LastSet(fragments, field, default) == default
  {
    if forall f | f in fragments :: field(f) == None {
      NobodySets(fragments, field, default);
    }
  }

  lemma {:induction false} NoWindows(fragments: seq<UpdateFragment>)
    ensures (forall f | f in fragments :: f.periodic == None || f.periodic.value.windows == None) ==>
              AllIntervals(fragments) == []
  {
    if fragments != [] {
      var last := |fragments| - 1;
      assert fragments == fragments[..last] + [fragments[last]];
      NoWindows(fragments[..last]);
    }
  }

  lemma OneMoreWindow(windows: seq<UpdatePeriodicWindow>, entry: UpdatePeriodicWindow)
    ensures WindowIntervals(windows + [entry]) == WindowIntervals(windows) + DayIntervals(entry, |entry.days|)
  {
    assert (windows + [entry])[..|windows|] == windows;
  }

  lemma OneMoreFragment(before: seq<UpdateFragment>, f: UpdateFragment)
    ensures AllIntervals(before + [f]) == AllIntervals(before) + WindowIntervals(f.Windows())
  {
    assert (before + [f])[..|before|] == before;
  }

  /** The intervals of one window entry stand in the order of its days, and entries and fragments in their own order. */
  lemma IntervalsInOrder(
    f: UpdateFragment, before: seq<UpdateFragment>, windows: seq<UpdatePeriodicWindow>, entry: UpdatePeriodicWindow)
    requires f.periodic.Some? && f.periodic.value.windows == Some(windows + [entry])
    ensures var earlier := AllIntervals(before) + WindowIntervals(windows);
            var all := AllIntervals(before + [f]);
            && |all| == |earlier| + |entry.days|
            && all[..|earlier|] == earlier
            && forall i: nat | i < |entry.days| ::
                 all[|earlier| + i] == PeriodicIntervalInput(entry.days[i], entry.startTime, entry.lengthMinutes)
  {
    OneMoreWindow(windows, entry);
    OneMoreFragment(before, f);
    hide AllIntervals, WindowIntervals;
    ConcatAssociates(AllIntervals(before), WindowIntervals(windows), DayIntervals(entry, |entry.days|));
  }

  predicate HasWindow(f: UpdateFragment, w: UpdatePeriodicWindow) {
    f.periodic.Some? && f.periodic.value.windows.Some? && w in f.periodic.value.windows.value
  }

  /** Some fragment configures the interval. */
  ghost predicate Configures(fragments: seq<UpdateFragment>, interval: PeriodicIntervalInput) {
    exists f, w :: f in fragments && HasWindow(f, w) && interval.startDay in w.days
                   && w.startTime == interval.startTime && w.lengthMinutes == interval.lengthMinutes
  }

  lemma {:induction false} WindowIntervalsExactly(windows: seq<UpdatePeriodicWindow>, interval: PeriodicIntervalInput)
    ensures interval in WindowIntervals(windows) <==>
            exists w :: w in windows && interval.startDay in w.days
                        && w.startTime == interval.startTime && w.lengthMinutes == interval.lengthMinutes
  {
    if windows != [] {
      var last := windows[|windows| - 1];
      assert windows == windows[..|windows| - 1] + [last];
      WindowIntervalsExactly(windows[..|windows| - 1], interval);
      var added := DayIntervals(last, |last.days|);
      if interval.startDay in last.days && last.startTime == interval.startTime
         && last.lengthMinutes == interval.lengthMinutes {
        var k :| 0 <= k < |last.days| && last.days[k] == interval.startDay;
        assert added[k] == interval;
      }
    }
  }

  lemma FragmentIntervalsExactly(f: UpdateFragment, interval: PeriodicIntervalInput)
    ensures interval in WindowIntervals(f.Windows()) <==> Configures([f], interval)
  {
    WindowIntervalsExactly(f.Windows(), interval);
    assert forall w :: w in f.Windows() <==> HasWindow(f, w);
    assert f in [f];
  }

  lemma ConfiguresOneMore(before: seq<UpdateFragment>, f: UpdateFragment, interval: PeriodicIntervalInput)
    ensures Configures(before + [f], interval) <==> Configures(before, interval) || Configures([f], interval)
  {
    assert forall g :: g in before + [f] <==> g in before || g in [f];
  }

  /** The merged intervals are exactly the configured ones, wherever in the fragments they stand. */
  lemma {:induction false} IntervalsExactly(fragments: seq<UpdateFragment>, interval: PeriodicIntervalInput)
    ensures interval in AllIntervals(fragments) <==> Configures(fragments, interval)
  {
    if fragments != [] {
      var last := |fragments| - 1;
      assert fragments == fragments[..last] + [fragments[last]];
      IntervalsExactly(fragments[..last], interval);
      FragmentIntervalsExactly(fragments[last], interval);
      ConfiguresOneMore(fragments[..last], fragments[last], interval);
    }
  }
}
