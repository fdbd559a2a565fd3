/** The weekly calendar: containment, search for the next window, measured length (src/weekly/mod.rs). */
module WeeklyCalendars {
  import opened Wrappers
  import opened FiniteSets
  import opened WeeklyTime
  import opened WeeklyWindows

  ghost predicate Covered(ranges: seq<Range>, minute: nat) {
    exists r :: r in ranges && r.Covers(minute)
  }

  ghost predicate CoveredWithNext(ranges: seq<Range>, minute: nat) {
    Covered(ranges, minute) && Covered(ranges, minute + 1)
  }

  /** The minutes below `bound` that are measured: those covered together with the minute after them. */
  ghost function MeasuredBelow(ranges: seq<Range>, bound: nat): set<int> {
    set t: int | 0 <= t < bound && CoveredWithNext(ranges, t)
  }

  /** All the measured minutes; a range ends within 32 bits. */
  ghost function MeasuredMinutes(ranges: seq<Range>): set<int> {
    MeasuredBelow(ranges, U32_MAX)
  }

  /** How many minutes below `n` are measured. */
  ghost function CountBelow(ranges: seq<Range>, n: nat): nat {
    if n == 0 then 0 else CountBelow(ranges, n - 1) + if CoveredWithNext(ranges, n - 1) then 1 else 0
  }

  /** Every minute from `lo` up to `hi` is covered. */
  ghost predicate CoveredBetween(ranges: seq<Range>, lo: nat, hi: nat) {
    forall t | lo <= t < hi :: Covered(ranges, t)
  }

  /** Nothing from `hi` on is covered. */
  ghost predicate CoveredBelow(ranges: seq<Range>, hi: nat) {
    forall t: nat | Covered(ranges, t) :: t < hi
  }

  ghost predicate AllStartFrom(ranges: seq<Range>, i: nat, start: nat) {
    forall j | i <= j < |ranges| :: start <= ranges[j].start
  }

  /** The first range that starts at or after the minute. */
  function FirstFrom(ranges: seq<Range>, minute: nat): Option<Range> {
    if ranges == [] then None
    else if minute <= ranges[0].start then Some(ranges[0])
    else FirstFrom(ranges[1..], minute)
  }

  /**
   * A calendar. The interval tree of the source is its contents in iteration order:
   * the stored ranges, ascending by start. The window kept beside each range is only
   * read for serialization.
   */
  datatype WeeklyCalendar = WeeklyCalendar(ranges: seq<Range>) {
    ghost predicate Valid() {
      && (forall i, j | 0 <= i < j < |ranges| :: ranges[i].start <= ranges[j].start)
      && (forall r | r in ranges :: r.start < r.end)
    }

    /** Whether any window contains the minute: a point query. */
    predicate ContainsMinute(minute: nat) {
      exists i | 0 <= i < |ranges| :: ranges[i].Covers(minute)
    }

    /** The start of the next window, or the given minute when a window contains it. */
    function NextWindowMinuteInWeek(minute: nat): Option<nat> {
      if ranges == [] then None
      else if ContainsMinute(minute) then Some(minute)
      else
        match FirstFrom(ranges, minute)
        case Some(next) => Some(next.start)
        case None => Some(ranges[0].start)
    }

    /** The minutes left until the next window. */
    function RemainingTo(minute: nat): Option<nat> {
      if ranges == [] then None
      else if ContainsMinute(minute) then Some(0)
      else
        match FirstFrom(ranges, minute)
        case Some(next) => Some(SaturatingSub(next.start, minute))
        case None => Some(SaturatingSub(MAX_WEEKLY_MINS, minute) + ranges[0].start)
    }

    /** The measured length of the calendar in minutes, overlaps counted once. */
    method LengthMinutes() returns (length: uint64)
      requires Valid()
      ensures length == |MeasuredMinutes(ranges)|
    {
      hide Progress, MeasuredMinutes, CloseRun;
      var measured: uint32 := 0;
      var last := Range(0, 0);
      NothingMeasured(ranges);
      for i := 0 to |ranges|
        invariant Progress(ranges, i, last, measured)
      {
        var win := ranges[i];
        if win.start > last.end {
          GapProgress(ranges, i, last, measured);
          measured := CloseRun(measured, last);
          last := win;
        } else {
          OverlapProgress(ranges, i, last, measured);
          last := last.(end := Max(last.end, win.end));
        }
      }
      // Account for the run that is still open.
      AllMeasured(ranges, last, measured);
      return CloseRun(measured, last);
    }
  }

  /** Add a finished run to the accumulated length; its last minute is not counted. */
  function CloseRun(measured: uint32, run: Range): uint32 {
    SaturatingAdd(measured, SaturatingSub(SaturatingSub(run.end, run.start), 1), U32_MAX)
  }

  /**
   * The state of the measuring loop after `i` ranges: `last` is the run still open,
   * past which nothing is covered yet.
   */
  ghost predicate Progress(ranges: seq<Range>, i: nat, last: Range, measured: nat) {
    && i <= |ranges|
    && (if i == 0 then last == Range(0, 0) else last.start < last.end)
    && CoveredBelow(ranges[..i], last.end)
    && CoveredBetween(ranges[..i], last.start, last.end)
    && AllStartFrom(ranges, i, last.start)
    && measured == CountBelow(ranges[..i], last.start) <= last.start
  }

  lemma NothingMeasured(ranges: seq<Range>)
    ensures Progress(ranges, 0, Range(0, 0), 0)
  {
  }

  lemma {:induction false} CountFrame(a: seq<Range>, b: seq<Range>, n: nat)
    requires forall t: nat | t < n :: CoveredWithNext(a, t) <==> CoveredWithNext(b, t)
    ensures CountBelow(a, n) == CountBelow(b, n)
  {
    if n > 0 { CountFrame(a, b, n - 1); }
  }

  lemma {:induction false} CountRun(ranges: seq<Range>, lo: nat, hi: nat)
    requires lo <= hi && forall t: nat | lo <= t < hi :: CoveredWithNext(ranges, t)
    ensures CountBelow(ranges, hi) == CountBelow(ranges, lo) + hi - lo
  {
    if lo < hi { CountRun(ranges, lo, hi - 1); }
  }

  lemma {:induction false} CountNone(ranges: seq<Range>, lo: nat, hi: nat)
    requires lo <= hi && forall t: nat | lo <= t < hi :: !CoveredWithNext(ranges, t)
    ensures CountBelow(ranges, hi) == CountBelow(ranges, lo)
  {
    if lo < hi { CountNone(ranges, lo, hi - 1); }
  }

  lemma {:induction false} CountIsSize(ranges: seq<Range>, n: nat)
    ensures |MeasuredBelow(ranges, n)| == CountBelow(ranges, n)
  {
    if n == 0 {
      assert MeasuredBelow(ranges, n) == {};
    } else {
      CountIsSize(ranges, n - 1);
      var fewer := MeasuredBelow(ranges, n - 1);
      if CoveredWithNext(ranges, n - 1) {
        assert MeasuredBelow(ranges, n) == fewer + {n - 1};
      } else {
        assert MeasuredBelow(ranges, n) == fewer;
      }
    }
  }

  /** Closing the open run counts one minute less than it covers, and nothing saturates. */
  lemma ClosedRun(ranges: seq<Range>, last: Range, measured: uint32, n: nat)
    requires CoveredBelow(ranges, last.end) && CoveredBetween(ranges, last.start, last.end)
    requires last == Range(0, 0) || last.start < last.end
    requires last.end <= n && measured == CountBelow(ranges, last.start) <= last.start
    ensures CountBelow(ranges, n) == CloseRun(measured, last) <= last.end
  {
    var lastPair := if last.end == 0 then 0 else last.end - 1;
    CountRun(ranges, last.start, lastPair);
    CountNone(ranges, lastPair, n);
  }

  lemma AllMeasured(ranges: seq<Range>, last: Range, measured: uint32)
    requires Progress(ranges, |ranges|, last, measured)
    ensures |MeasuredMinutes(ranges)| == CloseRun(measured, last)
  {
    assert ranges[..|ranges|] == ranges;
    var bound: nat := U32_MAX;
    ClosedRun(ranges, last, measured, bound);
    CountIsSize(ranges, bound);
  }

  lemma CoverageGrows(ranges: seq<Range>, i: nat, t: nat)
    requires i < |ranges|
    ensures Covered(ranges[..i + 1], t) <==> Covered(ranges[..i], t) || ranges[i].Covers(t)
  {
    assert ranges[..i + 1] == ranges[..i] + [ranges[i]];
  }

  lemma GapProgress(ranges: seq<Range>, i: nat, last: Range, measured: uint32)
    requires WeeklyCalendar(ranges).Valid() && i < |ranges| && Progress(ranges, i, last, measured)
    requires ranges[i].start > last.end
    ensures Progress(ranges, i + 1, ranges[i], CloseRun(measured, last))
  {
    var win := ranges[i];
    var before, after := ranges[..i], ranges[..i + 1];
    forall t: nat ensures Covered(after, t) <==> Covered(before, t) || win.Covers(t) {
      CoverageGrows(ranges, i, t);
    }
    CountFrame(after, before, win.start);
    ClosedRun(before, last, measured, win.start);
  }

  lemma OverlapProgress(ranges: seq<Range>, i: nat, last: Range, measured: uint32)
    requires WeeklyCalendar(ranges).Valid() && i < |ranges| && Progress(ranges, i, last, measured)
    requires ranges[i].start <= last.end
    ensures Progress(ranges, i + 1, last.(end := Max(last.end, ranges[i].end)), measured)
  {
    var win := ranges[i];
    var before, after := ranges[..i], ranges[..i + 1];
    forall t: nat ensures Covered(after, t) <==> Covered(before, t) || win.Covers(t) {
      CoverageGrows(ranges, i, t);
    }
    CountFrame(after, before, last.start);
  }

  /** The covered minutes, and those at which a maximal covered run ends. */
  ghost function CoveredMinutes(ranges: seq<Range>): set<int> {
    set t: int | 0 <= t < U32_MAX && Covered(ranges, t)
  }

  ghost function RunEnds(ranges: seq<Range>): set<int> {
    set t: int | 0 <= t < U32_MAX && Covered(ranges, t) && !CoveredWithNext(ranges, t)
  }

  /** The measured length is the covered minutes less one for every maximal covered run. */
  lemma MeasuredIsCoveredLessRuns(ranges: seq<Range>)
    ensures |MeasuredMinutes(ranges)| == |CoveredMinutes(ranges)| - |RunEnds(ranges)|
  {
    assert CoveredMinutes(ranges) == MeasuredMinutes(ranges) + RunEnds(ranges);
    assert MeasuredMinutes(ranges) !! RunEnds(ranges);
  }

  /** The measured length depends on which ranges there are, not on their order or repetition. */
  lemma LengthIgnoresOrder(a: seq<Range>, b: seq<Range>)
    requires forall r :: r in a <==> r in b
    ensures MeasuredMinutes(a) == MeasuredMinutes(b)
  {
  }

  /** Ranges that end with the week measure at most a week. */
  lemma LengthWithinWeek(ranges: seq<Range>)
    requires forall r | r in ranges :: r.end <= MAX_WEEKLY_MINS + 1
    ensures |MeasuredMinutes(ranges)| <= MAX_WEEKLY_MINS
  {
    var week: nat := MAX_WEEKLY_MINS;
    forall t | t in MeasuredMinutes(ranges) ensures t in Interval(0, week) {
      assert Covered(ranges, t + 1);
    }
    SubsetSize(MeasuredMinutes(ranges), Interval(0, week));
    IntervalSize(0, week);
  }

  /** Two windows that touch are measured as one run, a minute longer than their lengths together. */
  lemma TouchingIsOneLonger(a: Range, b: Range)
    requires a.start < a.end == b.start < b.end
    ensures |MeasuredMinutes([a, b])| == (a.end - a.start - 1) + (b.end - b.start - 1) + 1
  {
    var ranges := [a, b];
    forall t: nat ensures Covered(ranges, t) <==> a.start <= t < b.end {
      assert Covered(ranges, t) <==> a.Covers(t) || b.Covers(t) by {
        assert a in ranges && b in ranges;
      }
    }
    var bound: nat := U32_MAX;
    CountNone(ranges, 0, a.start);
    ClosedRun(ranges, Range(a.start, b.end), 0, bound);
    CountIsSize(ranges, bound);
  }

  /** The minute of the week that comes `d` minutes after `minute`. */
  function After(minute: nat, d: nat): nat {
    (minute + d) % MAX_WEEKLY_MINS
  }

  lemma {:induction false} FirstFromIsFirst(ranges: seq<Range>, minute: nat)
    requires WeeklyCalendar(ranges).Valid()
    ensures match FirstFrom(ranges, minute)
            case Some(first) =>
              first in ranges && minute <= first.start &&
              forall r | r in ranges :: r.start < minute || first.start <= r.start
            case None => forall r | r in ranges :: r.start < minute
  {
    if ranges != [] {
      assert ranges == [ranges[0]] + ranges[1..];
      if minute <= ranges[0].start {
        forall r | r in ranges ensures ranges[0].start <= r.start {
          var i :| 0 <= i < |ranges| && ranges[i] == r;
        }
      } else {
        assert WeeklyCalendar(ranges[1..]).Valid();
        FirstFromIsFirst(ranges[1..], minute);
      }
    }
  }

  lemma ContainsIsCovered(calendar: WeeklyCalendar, minute: nat)
    ensures calendar.ContainsMinute(minute) <==> Covered(calendar.ranges, minute)
  {
  }

  lemma HeadStartsFirst(ranges: seq<Range>)
    requires WeeklyCalendar(ranges).Valid() && ranges != []
    ensures forall r | r in ranges :: ranges[0].start <= r.start
  {
  }

  /** Whether a wait of `d` minutes is the shortest that reaches a window, by circular search. */
  ghost predicate IsShortestWait(calendar: WeeklyCalendar, minute: nat, d: nat) {
    && calendar.ContainsMinute(After(minute, d))
    && forall e: nat | e < d :: !calendar.ContainsMinute(After(minute, e))
  }

  ghost predicate Quiet(calendar: WeeklyCalendar, lo: nat, hi: nat) {
    forall m: nat | lo <= m < hi :: !calendar.ContainsMinute(m)
  }

  lemma AfterInWeek(minute: nat, d: nat)
    requires minute < MAX_WEEKLY_MINS && d < MAX_WEEKLY_MINS
    ensures After(minute, d) == if minute + d < MAX_WEEKLY_MINS then minute + d else minute + d - MAX_WEEKLY_MINS
  {
  }

  /** Between an uncovered minute and the next start, nothing is covered. */
  lemma QuietBeforeStart(calendar: WeeklyCalendar, minute: nat, start: nat)
    requires !calendar.ContainsMinute(minute)
    requires forall r | r in calendar.ranges :: r.start < minute || start <= r.start
    ensures Quiet(calendar, minute, start)
  {
  }

  lemma StartIsContained(calendar: WeeklyCalendar, r: Range)
    requires calendar.Valid() && r in calendar.ranges
    ensures calendar.ContainsMinute(r.start)
  {
  }

  lemma WaitThisWeek(calendar: WeeklyCalendar, minute: nat, start: nat)
    requires minute <= start < MAX_WEEKLY_MINS
    requires Quiet(calendar, minute, start) && calendar.ContainsMinute(start)
    ensures IsShortestWait(calendar, minute, start - minute)
    ensures After(minute, start - minute) == start
  {
    AfterInWeek(minute, start - minute);
    forall e: nat | e < start - minute ensures !calendar.ContainsMinute(After(minute, e)) {
      AfterInWeek(minute, e);
    }
  }

  lemma WaitNextWeek(calendar: WeeklyCalendar, minute: nat, start: nat)
    requires start < minute < MAX_WEEKLY_MINS
    requires Quiet(calendar, minute, MAX_WEEKLY_MINS) && Quiet(calendar, 0, start) && calendar.ContainsMinute(start)
    ensures IsShortestWait(calendar, minute, MAX_WEEKLY_MINS - minute + start)
    ensures After(minute, MAX_WEEKLY_MINS - minute + start) == start
  {
    AfterInWeek(minute, MAX_WEEKLY_MINS - minute + start);
    forall e: nat | e < MAX_WEEKLY_MINS - minute + start ensures !calendar.ContainsMinute(After(minute, e)) {
      AfterInWeek(minute, e);
    }
  }

  lemma SearchThisWeek(calendar: WeeklyCalendar, minute: nat, first: Range)
    requires calendar.Valid() && minute < MAX_WEEKLY_MINS && !calendar.ContainsMinute(minute)
    requires FirstFrom(calendar.ranges, minute) == Some(first) && first.start < MAX_WEEKLY_MINS
    ensures minute <= first.start
    ensures IsShortestWait(calendar, minute, first.start - minute)
    ensures After(minute, first.start - minute) == first.start
  {
    FirstFromIsFirst(calendar.ranges, minute);
    QuietBeforeStart(calendar, minute, first.start);
    StartIsContained(calendar, first);
    WaitThisWeek(calendar, minute, first.start);
  }

  lemma SearchNextWeek(calendar: WeeklyCalendar, minute: nat)
    requires calendar.Valid() && calendar.ranges != []
    requires minute < MAX_WEEKLY_MINS && !calendar.ContainsMinute(minute)
    requires FirstFrom(calendar.ranges, minute) == None
    ensures var start := calendar.ranges[0].start;
            && start < minute
            && IsShortestWait(calendar, minute, MAX_WEEKLY_MINS - minute + start)
            && After(minute, MAX_WEEKLY_MINS - minute + start) == start
  {
    var first := calendar.ranges[0];
    FirstFromIsFirst(calendar.ranges, minute);
    HeadStartsFirst(calendar.ranges);
    QuietBeforeStart(calendar, minute, MAX_WEEKLY_MINS);
    forall m: nat | m < first.start ensures !calendar.ContainsMinute(m) {
      ContainsIsCovered(calendar, m);
    }
    assert first in calendar.ranges;
    StartIsContained(calendar, first);
    WaitNextWeek(calendar, minute, first.start);
  }

  /**
   * Both next-window searches agree with circular search: the remaining time is the
   * shortest wait, less than a week, and the next window starts where that wait ends.
   */
  lemma SearchesAreShortest(calendar: WeeklyCalendar, minute: nat)
    requires calendar.Valid() && minute < MAX_WEEKLY_MINS
    requires forall r | r in calendar.ranges :: r.start < MAX_WEEKLY_MINS
    ensures calendar.RemainingTo(minute).None? <==> calendar.ranges == []
    ensures calendar.NextWindowMinuteInWeek(minute).None? <==> calendar.ranges == []
    ensures calendar.ranges != [] ==>
              var d := calendar.RemainingTo(minute).value;
              && d < MAX_WEEKLY_MINS
              && IsShortestWait(calendar, minute, d)
              && calendar.NextWindowMinuteInWeek(minute).value == After(minute, d) < MAX_WEEKLY_MINS
  {
    if calendar.ranges != [] {
      AfterInWeek(minute, 0);
      if !calendar.ContainsMinute(minute) {
        FirstFromIsFirst(calendar.ranges, minute);
        match FirstFrom(calendar.ranges, minute)
        case Some(first) => SearchThisWeek(calendar, minute, first);
        case None => SearchNextWeek(calendar, minute);
      }
    }
  }

  /** The searches depend on nothing but which minutes of the week are covered. */
  lemma SearchesIgnoreRanges(a: WeeklyCalendar, b: WeeklyCalendar, minute: nat)
    requires a.Valid() && b.Valid() && (a.ranges == [] <==> b.ranges == []) && minute < MAX_WEEKLY_MINS
    requires forall r | r in a.ranges + b.ranges :: r.start < MAX_WEEKLY_MINS
    requires forall m: nat | m < MAX_WEEKLY_MINS :: a.ContainsMinute(m) <==> b.ContainsMinute(m)
    ensures a.RemainingTo(minute) == b.RemainingTo(minute)
    ensures a.NextWindowMinuteInWeek(minute) == b.NextWindowMinuteInWeek(minute)
  {
    SearchesAreShortest(a, minute);
    SearchesAreShortest(b, minute);
    if a.ranges != [] {
      SameWait(a, minute, a.RemainingTo(minute).value, b, minute, b.RemainingTo(minute).value);
    }
  }

  /** A shortest wait is determined by which of the minutes ahead are covered. */
  lemma SameWait(a: WeeklyCalendar, from: nat, d: nat, b: WeeklyCalendar, other: nat, e: nat)
    requires IsShortestWait(a, from, d) && IsShortestWait(b, other, e)
    requires forall k: nat :: a.ContainsMinute(After(from, k)) <==> b.ContainsMinute(After(other, k))
    ensures d == e
  {
    hide After;
  }

  // ---------- Time zones ----------

  /** Every minute of the week is covered exactly if the minute `offset` after it is. */
  ghost predicate SameInZone(calendar: WeeklyCalendar, offset: nat) {
    forall m: nat | m < MAX_WEEKLY_MINS :: calendar.ContainsMinute(m) <==> calendar.ContainsMinute(After(m, offset))
  }

  lemma AfterAfter(minute: nat, d: nat, e: nat)
    ensures After(After(minute, d), e) == After(minute, d + e)
  {
    var q, r := (minute + d) / MAX_WEEKLY_MINS, (minute + d) % MAX_WEEKLY_MINS;
    var p, t := (r + e) / MAX_WEEKLY_MINS, (r + e) % MAX_WEEKLY_MINS;
    assert minute + d + e == MAX_WEEKLY_MINS * (q + p) + t;
  }

  lemma OffsetsCommute(minute: nat, d: nat, offset: nat)
    ensures After(After(minute, offset), d) == After(After(minute, d), offset)
  {
    hide After;
    AfterAfter(minute, offset, d);
    AfterAfter(minute, d, offset);
  }

  lemma ZeroWaitInside(calendar: WeeklyCalendar, minute: nat)
    requires calendar.Valid() && calendar.ranges != [] && minute < MAX_WEEKLY_MINS
    requires forall r | r in calendar.ranges :: r.start < MAX_WEEKLY_MINS
    ensures calendar.RemainingTo(minute) == Some(0) <==> calendar.ContainsMinute(minute)
  {
    SearchesAreShortest(calendar, minute);
    AfterInWeek(minute, 0);
  }

  lemma SameZoneSameWait(calendar: WeeklyCalendar, offset: nat, utc: nat)
    requires calendar.Valid() && calendar.ranges != [] && utc < MAX_WEEKLY_MINS && SameInZone(calendar, offset)
    requires forall r | r in calendar.ranges :: r.start < MAX_WEEKLY_MINS
    ensures calendar.RemainingTo(utc) == calendar.RemainingTo(After(utc, offset))
  {
    var local := After(utc, offset);
    SearchesAreShortest(calendar, utc);
    SearchesAreShortest(calendar, local);
    forall k: nat ensures calendar.ContainsMinute(After(utc, k)) <==> calendar.ContainsMinute(After(local, k)) {
      OffsetsCommute(utc, k, offset);
    }
    SameWait(calendar, utc, calendar.RemainingTo(utc).value, calendar, local, calendar.RemainingTo(local).value);
  }

  /**
   * The wait counted from the minute in UTC is right in a zone that is `offset` minutes
   * ahead, whatever the time, exactly when the calendar is the same moved by the offset.
   */
  lemma WaitsAgreeExactly(calendar: WeeklyCalendar, offset: nat)
    requires calendar.Valid() && calendar.ranges != []
    requires forall r | r in calendar.ranges :: r.start < MAX_WEEKLY_MINS
    ensures (forall utc: nat | utc < MAX_WEEKLY_MINS ::
               calendar.RemainingTo(utc) == calendar.RemainingTo(After(utc, offset))) <==> SameInZone(calendar, offset)
  {
    if SameInZone(calendar, offset) {
      forall utc: nat | utc < MAX_WEEKLY_MINS
        ensures calendar.RemainingTo(utc) == calendar.RemainingTo(After(utc, offset))
      {
        SameZoneSameWait(calendar, offset, utc);
      }
    }
    if forall utc: nat | utc < MAX_WEEKLY_MINS :: calendar.RemainingTo(utc) == calendar.RemainingTo(After(utc, offset)) {
      forall m: nat | m < MAX_WEEKLY_MINS
        ensures calendar.ContainsMinute(m) <==> calendar.ContainsMinute(After(m, offset))
      {
        ZeroWaitInside(calendar, m);
        ZeroWaitInside(calendar, After(m, offset));
      }
    }
  }

  /** The greatest common divisor. */
  function Gcd(a: nat, b: nat): nat
    decreases b
  {
    if b == 0 then a else Gcd(b, a % b)
  }

  lemma ZoneSum(calendar: WeeklyCalendar, a: nat, b: nat)
    requires SameInZone(calendar, a)
    ensures SameInZone(calendar, b) <==> SameInZone(calendar, a + b)
  {
    hide After, WeeklyCalendar.ContainsMinute;
    forall m: nat | m < MAX_WEEKLY_MINS
      ensures (calendar.ContainsMinute(m) <==> calendar.ContainsMinute(After(m, b))) <==>
              (calendar.ContainsMinute(m) <==> calendar.ContainsMinute(After(m, a + b)))
    {
      AfterAfter(m, b, a);
      AfterIsInWeek(m, b);
    }
    if !SameInZone(calendar, b) {
      var m: nat :| m < MAX_WEEKLY_MINS && !(calendar.ContainsMinute(m) <==> calendar.ContainsMinute(After(m, b)));
      assert !(calendar.ContainsMinute(m) <==> calendar.ContainsMinute(After(m, a + b)));
    } else {
      forall m: nat | m < MAX_WEEKLY_MINS
        ensures calendar.ContainsMinute(m) <==> calendar.ContainsMinute(After(m, a + b))
      {
        assert calendar.ContainsMinute(m) <==> calendar.ContainsMinute(After(m, b));
      }
    }
  }

  lemma AfterIsInWeek(minute: nat, d: nat)
    ensures After(minute, d) < MAX_WEEKLY_MINS
  {
  }

  lemma {:induction false} ZoneMultiple(calendar: WeeklyCalendar, a: nat, k: nat)
    requires SameInZone(calendar, a)
    ensures SameInZone(calendar, k * a)
    decreases k
  {
    if k == 0 {
      forall m: nat | m < MAX_WEEKLY_MINS ensures After(m, 0) == m { AfterInWeek(m, 0); }
    } else {
      ZoneMultiple(calendar, a, k - 1);
      hide SameInZone;
      ZoneSum(calendar, a, (k - 1) * a);
      assert a + (k - 1) * a == k * a;
    }
  }

  /** Being the same in two zones is being the same in the zone of the divisor. */
  lemma {:induction false} ZoneGcd(calendar: WeeklyCalendar, a: nat, b: nat)
    ensures SameInZone(calendar, a) && SameInZone(calendar, b) <==> SameInZone(calendar, Gcd(a, b))
    decreases b
  {
    hide SameInZone;
    if b == 0 {
      ZoneZero(calendar);
    } else {
      ZoneGcd(calendar, b, a % b);
      if SameInZone(calendar, b) {
        ZoneMultiple(calendar, b, a / b);
        ZoneSum(calendar, a / b * b, a % b);
        assert a / b * b + a % b == a;
      }
    }
  }

  lemma ZoneZero(calendar: WeeklyCalendar)
    ensures SameInZone(calendar, 0)
  {
    forall m: nat | m < MAX_WEEKLY_MINS ensures After(m, 0) == m { AfterInWeek(m, 0); }
  }

  lemma ZoneWeek(calendar: WeeklyCalendar)
    ensures SameInZone(calendar, MAX_WEEKLY_MINS)
  {
    forall m: nat | m < MAX_WEEKLY_MINS ensures After(m, MAX_WEEKLY_MINS) == m {
      AfterAfter(m, 0, MAX_WEEKLY_MINS);
      AfterInWeek(m, 0);
    }
  }

  /**
   * A calendar moved by an offset is the same exactly when it repeats itself with the
   * greatest period that divides both the offset and the week: every two hours, for an
   * offset of two hours.
   */
  lemma ZoneExactly(calendar: WeeklyCalendar, offset: nat)
    ensures SameInZone(calendar, offset) <==> SameInZone(calendar, Gcd(offset, MAX_WEEKLY_MINS))
  {
    var week: nat := MAX_WEEKLY_MINS;
    hide SameInZone, Gcd;
    ZoneWeek(calendar);
    ZoneGcd(calendar, offset, week);
  }
}
