/** The periodic strategy: from configured intervals to a calendar (src/strategy/periodic.rs). */
module Periodic {
  import opened Wrappers
  import opened Text
  import opened WeeklyTime
  import opened WeeklyWindows
  import opened WeeklyCalendars
  import opened HumanDuration
  import opened ConfigInputs

  datatype PeriodicError = BadWeekday | BadTime | BadTimespan | EmptySchedule

  /** The windows of one configured interval. */
  function EntryWindows(entry: PeriodicIntervalInput): Result<seq<WeeklyWindow>, PeriodicError> {
    match WeekdayFromString(entry.startDay)
    case None => Err(BadWeekday)
    case Some(day) =>
      match TimeFromString(entry.startTime)
      case None => Err(BadTime)
      case Some((hour, minute)) =>
        match TimespanWindows(day, hour, minute, SaturatingMul(entry.lengthMinutes, 60, U64_MAX))
        case Err(_) => Err(BadTimespan)
        case Ok(windows) => Ok(windows)
  }

  type EntryReader = PeriodicIntervalInput -> Result<seq<WeeklyWindow>, PeriodicError>

  /** The windows of the first `k` intervals, or the error of the first bad one. */
  function CollectWindows(read: EntryReader, entries: seq<PeriodicIntervalInput>, k: nat)
    : Result<seq<WeeklyWindow>, PeriodicError>
    requires k <= |entries|
  {
    if k == 0 then Ok([])
    else
      match CollectWindows(read, entries, k - 1)
      case Err(error) => Err(error)
      case Ok(windows) =>
        match read(entries[k - 1])
        case Err(error) => Err(error)
        case Ok(more) => Ok(windows + more)
  }

  /** The windows of all intervals. */
  function AllWindows(entries: seq<PeriodicIntervalInput>): Result<seq<WeeklyWindow>, PeriodicError> {
    CollectWindows(EntryWindows, entries, |entries|)
  }

  function InsertRange(ranges: seq<Range>, r: Range): seq<Range> {
    if ranges == [] || r.start <= ranges[0].start then [r] + ranges
    else [ranges[0]] + InsertRange(ranges[1..], r)
  }

  /** The stored ranges of some windows, ascending by start. */
  function SortedRanges(windows: seq<WeeklyWindow>): seq<Range> {
    if windows == [] then []
    else InsertRange(SortedRanges(windows[1..]), windows[0].RangeWeeklyMinutes())
  }

  /** Build a calendar from windows. */
  function CalendarOf(windows: seq<WeeklyWindow>): WeeklyCalendar {
    WeeklyCalendar(SortedRanges(windows))
  }

  /** The schedule of a configuration: fails on the first bad interval, or when nothing is configured. */
  function Schedule(entries: seq<PeriodicIntervalInput>): Result<WeeklyCalendar, PeriodicError> {
    match AllWindows(entries)
    case Err(error) => Err(error)
    case Ok(windows) => if windows == [] then Err(EmptySchedule) else Ok(CalendarOf(windows))
  }

  /** Build the strategy's schedule. */
  method New(entries: seq<PeriodicIntervalInput>) returns (schedule: Result<WeeklyCalendar, PeriodicError>)
    ensures schedule == Schedule(entries)
  {
    var intervals := ParseEntries(entries);
    if intervals.Err? {
      return Err(intervals.error);
    }
    var calendar := CalendarOf(intervals.value);
    CalendarIsValid(intervals.value);
    var length := calendar.LengthMinutes();
    MeasuredUnlessEmpty(entries);
    if length == 0 {
      return Err(EmptySchedule);
    }
    return Ok(calendar);
  }

  /** Parse the configured intervals in turn, stopping at the first bad one. */
  method ParseEntries(entries: seq<PeriodicIntervalInput>)
    returns (intervals: Result<seq<WeeklyWindow>, PeriodicError>)
    ensures intervals == AllWindows(entries)
  {
    hide EntryWindows;
    var windows: seq<WeeklyWindow> := [];
    for i := 0 to |entries|
      invariant CollectWindows(EntryWindows, entries, i) == Ok(windows)
    {
      var more := ParseEntry(entries[i]);
      if more.Err? {
        FirstErrorStays(EntryWindows, entries, i + 1, |entries|);
        return Err(more.error);
      }
      windows := windows + more.value;
    }
    return Ok(windows);
  }

  /** Parse one configured interval. */
  method ParseEntry(entry: PeriodicIntervalInput) returns (windows: Result<seq<WeeklyWindow>, PeriodicError>)
    ensures windows == EntryWindows(entry)
  {
    var day := WeekdayFromString(entry.startDay);
    if day.None? {
      return Err(BadWeekday);
    }
    var start := TimeFromString(entry.startTime);
    if start.None? {
      return Err(BadTime);
    }
    var length := SaturatingMul(entry.lengthMinutes, 60, U64_MAX);
    var parsed := ParseTimespan(day.value, start.value.0, start.value.1, length);
    match parsed
    case Err(_) => return Err(BadTimespan);
    case Ok(value) => return Ok(value);
  }

  lemma {:induction false} FirstErrorStays(read: EntryReader, entries: seq<PeriodicIntervalInput>, i: nat, k: nat)
    requires i <= k <= |entries| && CollectWindows(read, entries, i).Err?
    ensures CollectWindows(read, entries, k) == CollectWindows(read, entries, i)
  {
    if i < k {
      FirstErrorStays(read, entries, i, k - 1);
    }
  }

  lemma {:induction false} InsertRangeMembers(ranges: seq<Range>, r: Range)
    ensures forall x :: x in InsertRange(ranges, r) <==> x in ranges || x == r
  {
    if ranges != [] {
      assert ranges == [ranges[0]] + ranges[1..];
      if ranges[0].start < r.start { InsertRangeMembers(ranges[1..], r); }
    }
  }

  lemma {:induction false} InsertRangeSorted(ranges: seq<Range>, r: Range)
    requires WeeklyCalendar(ranges).Valid() && r.start < r.end
    ensures WeeklyCalendar(InsertRange(ranges, r)).Valid()
  {
    InsertRangeMembers(ranges, r);
    if ranges != [] && ranges[0].start < r.start {
      assert WeeklyCalendar(ranges[1..]).Valid();
      InsertRangeSorted(ranges[1..], r);
      InsertRangeMembers(ranges[1..], r);
      HeadStartsFirst(ranges);
      var rest := InsertRange(ranges[1..], r);
      forall j | 0 <= j < |rest| ensures ranges[0].start <= rest[j].start {
        assert rest[j] in rest;
      }
    }
  }

  /** The calendar stores exactly the ranges of its windows, in order. */
  lemma {:induction false} CalendarIsValid(windows: seq<WeeklyWindow>)
    ensures CalendarOf(windows).Valid()
    ensures forall r :: r in CalendarOf(windows).ranges <==> exists w :: w in windows && w.RangeWeeklyMinutes() == r
  {
    if windows != [] {
      CalendarIsValid(windows[1..]);
      InsertRangeSorted(SortedRanges(windows[1..]), windows[0].RangeWeeklyMinutes());
      InsertRangeMembers(SortedRanges(windows[1..]), windows[0].RangeWeeklyMinutes());
      assert windows == [windows[0]] + windows[1..];
    }
  }

  ghost predicate GivesWindow(read: EntryReader, entry: PeriodicIntervalInput, w: WeeklyWindow) {
    read(entry).Ok? && w in read(entry).value
  }

  /** The windows collected are exactly those of the intervals. */
  lemma {:induction false} CollectedExactly(read: EntryReader, entries: seq<PeriodicIntervalInput>, k: nat, w: WeeklyWindow)
    requires k <= |entries| && CollectWindows(read, entries, k).Ok?
    ensures w in CollectWindows(read, entries, k).value <==>
            exists i | 0 <= i < k :: GivesWindow(read, entries[i], w)
  {
    if k > 0 {
      CollectedExactly(read, entries, k - 1, w);
      if i :| 0 <= i < k && GivesWindow(read, entries[i], w) {
        assert i == k - 1 || w in CollectWindows(read, entries, k - 1).value;
      }
    }
  }

  lemma {:induction false} CollectFailsExactly(read: EntryReader, entries: seq<PeriodicIntervalInput>, k: nat)
    requires k <= |entries|
    ensures CollectWindows(read, entries, k).Err? <==> exists i | 0 <= i < k :: read(entries[i]).Err?
  {
    if k > 0 { CollectFailsExactly(read, entries, k - 1); }
  }

  /** An interval is usable when its day and time parse and its length is 1 minute to a week. */
  predicate IsUsable(entry: PeriodicIntervalInput) {
    && WeekdayFromString(entry.startDay).Some?
    && TimeFromString(entry.startTime).Some?
    && 1 <= entry.lengthMinutes <= MAX_WEEKLY_MINS
  }

  function StartOf(entry: PeriodicIntervalInput): nat
    requires IsUsable(entry)
  {
    var time := TimeFromString(entry.startTime).value;
    TimeAsWeeklyMinute(WeekdayFromString(entry.startDay).value, time.0, time.1)
  }

  lemma UsableExactly(entry: PeriodicIntervalInput)
    ensures EntryWindows(entry).Ok? <==> IsUsable(entry)
  {
  }

  /** The windows of an interval, by the ranges they store: one, or two if the interval goes past the week. */
  ghost predicate Cut(windows: seq<WeeklyWindow>, start: nat, length: nat) {
    var end := start + length;
    && start < MAX_WEEKLY_MINS && 1 <= length <= MAX_WEEKLY_MINS
    && |windows| == (if end <= MAX_WEEKLY_MINS then 1 else 2)
    && windows[0].RangeWeeklyMinutes() == Range(start, Min(end, MAX_WEEKLY_MINS) + 1)
    && (|windows| == 2 ==> windows[1].RangeWeeklyMinutes() == Range(0, end - MAX_WEEKLY_MINS + 1))
  }

  lemma EntryIsCut(entry: PeriodicIntervalInput)
    requires IsUsable(entry)
    ensures EntryWindows(entry).Ok? && Cut(EntryWindows(entry).value, StartOf(entry), entry.lengthMinutes)
  {
    var time := TimeFromString(entry.startTime).value;
    var day := WeekdayFromString(entry.startDay).value;
    hide WeekdayFromString, TimeFromString, TimespanWindows;
    TimespanRanges(day, time.0, time.1, entry.lengthMinutes);
  }

  /** The minutes counted on from the start around the week, the last one included unless the week ends with it. */
  predicate OnFrom(start: nat, length: nat, minute: nat) {
    var offset := (minute - start) % MAX_WEEKLY_MINS;
    offset < length || (offset == length && start + length != MAX_WEEKLY_MINS)
  }

  /** What an interval allows, as the configuration means it. */
  predicate Allows(entry: PeriodicIntervalInput, minute: nat)
    requires IsUsable(entry)
  {
    OnFrom(StartOf(entry), entry.lengthMinutes, minute)
  }

  /** The ranges of an interval, cut at the end of the week, hold the minutes counted around the week. */
  lemma CutIsCircular(start: nat, length: nat, minute: nat)
    requires start < MAX_WEEKLY_MINS && minute < MAX_WEEKLY_MINS && length <= MAX_WEEKLY_MINS
    ensures (start <= minute <= start + length
             || (start + length > MAX_WEEKLY_MINS && minute <= start + length - MAX_WEEKLY_MINS))
            <==> OnFrom(start, length, minute)
  {
  }

  ghost predicate SomeCovers(windows: seq<WeeklyWindow>, minute: nat) {
    exists w :: w in windows && w.RangeWeeklyMinutes().Covers(minute)
  }

  lemma SomeCoversExactly(windows: seq<WeeklyWindow>, minute: nat)
    requires 1 <= |windows| <= 2
    ensures SomeCovers(windows, minute) <==>
            windows[0].RangeWeeklyMinutes().Covers(minute)
            || (|windows| == 2 && windows[1].RangeWeeklyMinutes().Covers(minute))
  {
    hide WeeklyWindow.RangeWeeklyMinutes, Range.Covers;
    if w :| w in windows && w.RangeWeeklyMinutes().Covers(minute) {
      var i :| 0 <= i < |windows| && windows[i] == w;
      assert i == 0 || i == 1;
    }
    if windows[0].RangeWeeklyMinutes().Covers(minute) {
      assert windows[0] in windows;
    }
    if |windows| == 2 && windows[1].RangeWeeklyMinutes().Covers(minute) {
      assert windows[1] in windows;
    }
  }

  lemma CutCovers(windows: seq<WeeklyWindow>, start: nat, length: nat, minute: nat)
    requires Cut(windows, start, length) && minute < MAX_WEEKLY_MINS
    ensures SomeCovers(windows, minute) <==> OnFrom(start, length, minute)
  {
    CutIsCircular(start, length, minute);
    SomeCoversExactly(windows, minute);
    hide OnFrom, SomeCovers, WeeklyWindow.RangeWeeklyMinutes;
  }

  lemma EntryAllows(entry: PeriodicIntervalInput, minute: nat)
    requires IsUsable(entry) && minute < MAX_WEEKLY_MINS
    ensures EntryWindows(entry).Ok?
    ensures SomeCovers(EntryWindows(entry).value, minute) <==> Allows(entry, minute)
  {
    EntryIsCut(entry);
    hide EntryWindows, StartOf, IsUsable, WeekdayFromString, TimeFromString, OnFrom, SomeCovers, Cut;
    CutCovers(EntryWindows(entry).value, StartOf(entry), entry.lengthMinutes, minute);
  }

  /** The interval that a window of the schedule comes from, and the range the window covers. */
  lemma WindowOrigin(entries: seq<PeriodicIntervalInput>, w: WeeklyWindow) returns (e: PeriodicIntervalInput)
    requires AllWindows(entries).Ok? && w in AllWindows(entries).value
    ensures e in entries && IsUsable(e) && GivesWindow(EntryWindows, e, w)
  {
    CollectedExactly(EntryWindows, entries, |entries|, w);
    var i :| 0 <= i < |entries| && GivesWindow(EntryWindows, entries[i], w);
    e := entries[i];
    UsableExactly(e);
  }

  lemma WindowsOfEntry(entries: seq<PeriodicIntervalInput>, e: PeriodicIntervalInput, w: WeeklyWindow)
    requires AllWindows(entries).Ok? && e in entries && GivesWindow(EntryWindows, e, w)
    ensures w in AllWindows(entries).value
  {
    CollectedExactly(EntryWindows, entries, |entries|, w);
    var i :| 0 <= i < |entries| && entries[i] == e;
  }

  /** A window's range starts within the week, covers at least two minutes, and ends with the week at the latest. */
  lemma WindowInWeek(e: PeriodicIntervalInput, w: WeeklyWindow)
    requires IsUsable(e) && GivesWindow(EntryWindows, e, w)
    ensures var r := w.RangeWeeklyMinutes();
            r.start < MAX_WEEKLY_MINS && r.start + 2 <= r.end <= MAX_WEEKLY_MINS + 1
  {
    EntryIsCut(e);
    hide EntryWindows, StartOf, IsUsable, WeeklyWindow.RangeWeeklyMinutes;
    CutInWeek(EntryWindows(e).value, StartOf(e), e.lengthMinutes, w);
  }

  lemma CutInWeek(windows: seq<WeeklyWindow>, start: nat, length: nat, w: WeeklyWindow)
    requires Cut(windows, start, length) && w in windows
    ensures var r := w.RangeWeeklyMinutes();
            r.start < MAX_WEEKLY_MINS && r.start + 2 <= r.end <= MAX_WEEKLY_MINS + 1
  {
    hide WeeklyWindow.RangeWeeklyMinutes;
    var i :| 0 <= i < |windows| && windows[i] == w;
    assert i == 0 || i == 1;
  }

  /** When all intervals can be read. */
  lemma AllReadExactly(entries: seq<PeriodicIntervalInput>)
    ensures AllWindows(entries).Ok? <==> forall e | e in entries :: IsUsable(e)
  {
    CollectFailsExactly(EntryWindows, entries, |entries|);
    forall e | e in entries
      ensures EntryWindows(e).Ok? <==> IsUsable(e)
    {
      UsableExactly(e);
    }
    if AllWindows(entries).Err? {
      var i :| 0 <= i < |entries| && EntryWindows(entries[i]).Err?;
      assert entries[i] in entries;
    } else {
      forall e | e in entries ensures IsUsable(e) {
        var i :| 0 <= i < |entries| && entries[i] == e;
      }
    }
  }

  /** When a schedule can be built: something is configured, and every interval is usable. */
  lemma ScheduleExists(entries: seq<PeriodicIntervalInput>)
    ensures Schedule(entries).Ok? <==> entries != [] && forall e | e in entries :: IsUsable(e)
  {
    AllReadExactly(entries);
    if AllWindows(entries).Ok? {
      if entries != [] {
        EntryIsCut(entries[0]);
        WindowsOfEntry(entries, entries[0], EntryWindows(entries[0]).value[0]);
      }
    }
  }

  /** Why an interval cannot be used: its day, then its time, then its length. */
  lemma EntryErrorExactly(entry: PeriodicIntervalInput)
    ensures EntryWindows(entry) == Err(BadWeekday) <==> WeekdayFromString(entry.startDay) == None
    ensures EntryWindows(entry) == Err(BadTime) <==>
            WeekdayFromString(entry.startDay).Some? && TimeFromString(entry.startTime) == None
    ensures EntryWindows(entry) == Err(BadTimespan) <==>
            && WeekdayFromString(entry.startDay).Some? && TimeFromString(entry.startTime).Some?
            && !(1 <= entry.lengthMinutes <= MAX_WEEKLY_MINS)
    ensures EntryWindows(entry) != Err(EmptySchedule)
  {
    UsableExactly(entry);
    hide WeekdayFromString, TimeFromString;
  }

  /** Why a schedule cannot be built: the first interval that is not usable, or nothing configured. */
  lemma ScheduleErrorExactly(entries: seq<PeriodicIntervalInput>, i: nat)
    ensures Schedule(entries) == Err(EmptySchedule) <==> entries == []
    ensures i < |entries| && !IsUsable(entries[i]) && (forall j: nat | j < i :: IsUsable(entries[j])) ==>
              EntryWindows(entries[i]).Err? && Schedule(entries) == Err(EntryWindows(entries[i]).error)
  {
    ScheduleExists(entries);
    if i < |entries| && !IsUsable(entries[i]) && forall j: nat | j < i :: IsUsable(entries[j]) {
      FirstUnusable(entries, i);
    }
    if entries == [] {
      assert AllWindows(entries) == Ok([]);
    } else if AllWindows(entries).Err? {
      forall e ensures EntryWindows(e) != Err(EmptySchedule) {
        EntryErrorExactly(e);
      }
      hide EntryWindows;
      ErrorsAreOfEntries(EntryWindows, entries, |entries|);
    }
  }

  lemma FirstUnusable(entries: seq<PeriodicIntervalInput>, i: nat)
    requires i < |entries| && !IsUsable(entries[i]) && forall j: nat | j < i :: IsUsable(entries[j])
    ensures EntryWindows(entries[i]).Err? && AllWindows(entries) == Err(EntryWindows(entries[i]).error)
  {
    forall j: nat | j <= i ensures EntryWindows(entries[j]).Ok? <==> IsUsable(entries[j]) {
      UsableExactly(entries[j]);
    }
    hide EntryWindows, IsUsable;
    FirstErrorDecides(EntryWindows, entries, i);
  }

  lemma FirstErrorDecides(read: EntryReader, entries: seq<PeriodicIntervalInput>, i: nat)
    requires i < |entries| && read(entries[i]).Err? && forall j: nat | j < i :: read(entries[j]).Ok?
    ensures CollectWindows(read, entries, |entries|) == Err(read(entries[i]).error)
  {
    CollectFailsExactly(read, entries, i);
    assert CollectWindows(read, entries, i + 1) == Err(read(entries[i]).error);
    hide CollectWindows;
    FirstErrorStays(read, entries, i + 1, |entries|);
  }

  lemma {:induction false} ErrorsAreOfEntries(read: EntryReader, entries: seq<PeriodicIntervalInput>, k: nat)
    requires k <= |entries| && CollectWindows(read, entries, k).Err?
    requires forall e | e in entries :: read(e) != Err(EmptySchedule)
    ensures CollectWindows(read, entries, k) != Err(EmptySchedule)
  {
    if CollectWindows(read, entries, k - 1).Err? {
      ErrorsAreOfEntries(read, entries, k - 1);
    } else {
      assert entries[k - 1] in entries;
    }
  }

  /** The measured length is zero only for a schedule without windows. */
  lemma MeasuredUnlessEmpty(entries: seq<PeriodicIntervalInput>)
    requires AllWindows(entries).Ok?
    ensures |MeasuredMinutes(CalendarOf(AllWindows(entries).value).ranges)| == 0 <==> AllWindows(entries).value == []
  {
    var windows := AllWindows(entries).value;
    CalendarIsValid(windows);
    if windows == [] {
      assert MeasuredMinutes([]) == {};
    } else {
      var e := WindowOrigin(entries, windows[0]);
      WindowInWeek(e, windows[0]);
      MeasuresSomething(CalendarOf(windows).ranges, windows[0].RangeWeeklyMinutes());
    }
  }

  lemma MeasuresSomething(ranges: seq<Range>, r: Range)
    requires r in ranges && r.start + 2 <= r.end
    ensures |MeasuredMinutes(ranges)| > 0
  {
    assert r.Covers(r.start) && r.Covers(r.start + 1);
    assert CoveredWithNext(ranges, r.start);
    assert r.start in MeasuredMinutes(ranges);
  }

  /**
   * The schedule, end to end: a minute of the week is allowed exactly when some configured
   * interval allows it.
   */
  lemma AllowedExactly(entries: seq<PeriodicIntervalInput>, minute: nat)
    requires Schedule(entries).Ok? && minute < MAX_WEEKLY_MINS
    ensures Schedule(entries).value.ContainsMinute(minute) <==>
            exists e :: e in entries && IsUsable(e) && Allows(e, minute)
  {
    var windows := AllWindows(entries).value;
    var calendar := CalendarOf(windows);
    CalendarIsValid(windows);
    ContainsIsCovered(calendar, minute);
    if Covered(calendar.ranges, minute) {
      var r :| r in calendar.ranges && r.Covers(minute);
      var w :| w in windows && w.RangeWeeklyMinutes() == r;
      var e := WindowOrigin(entries, w);
      EntryAllows(e, minute);
      assert SomeCovers(EntryWindows(e).value, minute);
    }
    if e :| e in entries && IsUsable(e) && Allows(e, minute) {
      EntryAllows(e, minute);
      var w :| w in EntryWindows(e).value && w.RangeWeeklyMinutes().Covers(minute);
      WindowsOfEntry(entries, e, w);
      assert w.RangeWeeklyMinutes() in calendar.ranges;
    }
  }

  lemma RangesFromEntries(a: seq<PeriodicIntervalInput>, b: seq<PeriodicIntervalInput>, r: Range)
    requires Schedule(a).Ok? && Schedule(b).Ok? && forall e | e in a :: e in b
    requires r in Schedule(a).value.ranges
    ensures r in Schedule(b).value.ranges
  {
    var windows := AllWindows(a).value;
    CalendarIsValid(windows);
    CalendarIsValid(AllWindows(b).value);
    var w :| w in windows && w.RangeWeeklyMinutes() == r;
    var e := WindowOrigin(a, w);
    WindowsOfEntry(b, e, w);
  }

  /** All that a schedule answers about a minute is the same, and so is its measured length. */
  ghost predicate SameAnswers(a: WeeklyCalendar, b: WeeklyCalendar, minute: nat) {
    && (a.ContainsMinute(minute) <==> b.ContainsMinute(minute))
    && a.RemainingTo(minute) == b.RemainingTo(minute)
    && a.NextWindowMinuteInWeek(minute) == b.NextWindowMinuteInWeek(minute)
    && |MeasuredMinutes(a.ranges)| == |MeasuredMinutes(b.ranges)|
  }

  lemma SameRangesSameAnswers(a: WeeklyCalendar, b: WeeklyCalendar, minute: nat)
    requires a.Valid() && b.Valid() && minute < MAX_WEEKLY_MINS
    requires forall r :: r in a.ranges <==> r in b.ranges
    requires forall r | r in a.ranges :: r.start < MAX_WEEKLY_MINS
    ensures SameAnswers(a, b, minute)
  {
    forall m: nat ensures a.ContainsMinute(m) <==> b.ContainsMinute(m) {
      ContainsIsCovered(a, m);
      ContainsIsCovered(b, m);
    }
    assert a.ranges == [] || a.ranges[0] in b.ranges;
    assert b.ranges == [] || b.ranges[0] in a.ranges;
    SearchesIgnoreRanges(a, b, minute);
    LengthIgnoresOrder(a.ranges, b.ranges);
  }

  /** Reordering intervals, or moving windows between fragments, changes no answer. */
  lemma GroupingIrrelevant(a: seq<UpdateFragment>, b: seq<UpdateFragment>, minute: nat)
    requires forall e :: Configures(a, e) <==> Configures(b, e)
    requires minute < MAX_WEEKLY_MINS
    ensures Schedule(AllIntervals(a)).Ok? <==> Schedule(AllIntervals(b)).Ok?
    ensures Schedule(AllIntervals(a)).Ok? ==>
              SameAnswers(Schedule(AllIntervals(a)).value, Schedule(AllIntervals(b)).value, minute)
  {
    var inA, inB := AllIntervals(a), AllIntervals(b);
    forall e ensures e in inA <==> e in inB {
      IntervalsExactly(a, e);
      IntervalsExactly(b, e);
    }
    hide Schedule, SameAnswers, IsUsable, Configures, AllIntervals;
    ScheduleExists(inA);
    ScheduleExists(inB);
    assert inA == [] || inA[0] in inB;
    assert inB == [] || inB[0] in inA;
    if Schedule(inA).Ok? {
      EntriesDecideAnswers(inA, inB, minute);
    }
  }

  lemma EntriesDecideAnswers(a: seq<PeriodicIntervalInput>, b: seq<PeriodicIntervalInput>, minute: nat)
    requires Schedule(a).Ok? && Schedule(b).Ok? && minute < MAX_WEEKLY_MINS
    requires forall e :: e in a <==> e in b
    ensures SameAnswers(Schedule(a).value, Schedule(b).value, minute)
  {
    hide Schedule, SameAnswers;
    ScheduleInWeek(a);
    ScheduleInWeek(b);
    forall r ensures r in Schedule(a).value.ranges <==> r in Schedule(b).value.ranges {
      if r in Schedule(a).value.ranges { RangesFromEntries(a, b, r); }
      if r in Schedule(b).value.ranges { RangesFromEntries(b, a, r); }
    }
    SameRangesSameAnswers(Schedule(a).value, Schedule(b).value, minute);
  }

  /** Every range of a schedule starts within the week and ends with it at the latest. */
  lemma ScheduleInWeek(entries: seq<PeriodicIntervalInput>)
    requires Schedule(entries).Ok?
    ensures Schedule(entries).value.Valid() && Schedule(entries).value.ranges != []
    ensures forall r | r in Schedule(entries).value.ranges ::
              r.start < MAX_WEEKLY_MINS && r.end <= MAX_WEEKLY_MINS + 1
  {
    var windows := AllWindows(entries).value;
    var ranges := Schedule(entries).value.ranges;
    CalendarIsValid(windows);
    assert windows[0] in windows && windows[0].RangeWeeklyMinutes() in ranges;
    forall r | r in ranges ensures r.start < MAX_WEEKLY_MINS && r.end <= MAX_WEEKLY_MINS + 1 {
      var w :| w in windows && w.RangeWeeklyMinutes() == r;
      var e := WindowOrigin(entries, w);
      WindowInWeek(e, w);
    }
  }

  lemma WaitReadsBack(calendar: WeeklyCalendar, minute: nat)
    requires calendar.Valid() && calendar.ranges != [] && minute < MAX_WEEKLY_MINS
    requires forall r | r in calendar.ranges :: r.start < MAX_WEEKLY_MINS
    ensures calendar.RemainingTo(minute).Some?
    ensures ReadDuration(HumanRemaining(calendar.RemainingTo(minute).value), 0, 0) == calendar.RemainingTo(minute).value
  {
    SearchesAreShortest(calendar, minute);
    var wait := calendar.RemainingTo(minute).value;
    HumanRemainingReadsBack(wait);
  }

  /**
   * What is announced for any configured schedule, at the minute `utc` in UTC and in a zone
   * `offset` minutes ahead. The next window exists, its minute is a minute of the week, and
   * it is the one reached by the shortest wait from the local minute. The wait announced is
   * the shortest from the minute in UTC, and its text reads back exactly. The announced
   * length is at most a week.
   */
  lemma AnnouncementsAreExact(entries: seq<PeriodicIntervalInput>, utc: nat, offset: nat)
    requires Schedule(entries).Ok? && utc < MAX_WEEKLY_MINS
    ensures var schedule, local := Schedule(entries).value, After(utc, offset);
            var next, wait := schedule.NextWindowMinuteInWeek(local), schedule.RemainingTo(utc);
            && next.Some? && wait.Some? && next.value < MAX_WEEKLY_MINS
            && (exists d: nat :: IsShortestWait(schedule, local, d) && next.value == After(local, d))
            && IsShortestWait(schedule, utc, wait.value)
            && ReadDuration(HumanRemaining(wait.value), 0, 0) == wait.value
            && |MeasuredMinutes(schedule.ranges)| <= MAX_WEEKLY_MINS
  {
    var schedule := Schedule(entries).value;
    ScheduleInWeek(entries);
    CalendarAnnouncements(schedule, utc);
    CalendarAnnouncements(schedule, After(utc, offset));
  }

  lemma CalendarAnnouncements(calendar: WeeklyCalendar, minute: nat)
    requires calendar.Valid() && calendar.ranges != [] && minute < MAX_WEEKLY_MINS
    requires forall r | r in calendar.ranges :: r.start < MAX_WEEKLY_MINS && r.end <= MAX_WEEKLY_MINS + 1
    ensures var next, wait := calendar.NextWindowMinuteInWeek(minute), calendar.RemainingTo(minute);
            && next.Some? && wait.Some? && next.value < MAX_WEEKLY_MINS
            && IsShortestWait(calendar, minute, wait.value)
            && next.value == After(minute, wait.value)
            && ReadDuration(HumanRemaining(wait.value), 0, 0) == wait.value
            && |MeasuredMinutes(calendar.ranges)| <= MAX_WEEKLY_MINS
  {
    SearchesAreShortest(calendar, minute);
    WaitReadsBack(calendar, minute);
    LengthWithinWeek(calendar.ranges);
  }

  /** Counting the announced wait from the local minute leads to the announced window. */
  ghost predicate AnnouncementsAgree(schedule: WeeklyCalendar, utc: nat, offset: nat)
    requires schedule.RemainingTo(utc).Some? && schedule.NextWindowMinuteInWeek(After(utc, offset)).Some?
  {
    After(After(utc, offset), schedule.RemainingTo(utc).value) ==
    schedule.NextWindowMinuteInWeek(After(utc, offset)).value
  }

  /**
   * The announced wait and the announced window agree, whatever the time, exactly when the
   * schedule allows the same minutes after being moved by the zone's offset.
   */
  lemma AnnouncementsAgreeExactly(entries: seq<PeriodicIntervalInput>, offset: nat)
    requires Schedule(entries).Ok?
    ensures var schedule := Schedule(entries).value;
            && (forall utc: nat | utc < MAX_WEEKLY_MINS ::
                  schedule.RemainingTo(utc).Some? && schedule.NextWindowMinuteInWeek(After(utc, offset)).Some?)
            && ((forall utc: nat | utc < MAX_WEEKLY_MINS :: AnnouncementsAgree(schedule, utc, offset)) <==>
                SameInZone(schedule, offset))
  {
    var schedule := Schedule(entries).value;
    ScheduleInWeek(entries);
    forall utc: nat | utc < MAX_WEEKLY_MINS
      ensures schedule.RemainingTo(utc).Some? && schedule.NextWindowMinuteInWeek(After(utc, offset)).Some?
      ensures AnnouncementsAgree(schedule, utc, offset) <==>
              schedule.RemainingTo(utc) == schedule.RemainingTo(After(utc, offset))
    {
      AgreeMeansSameWait(schedule, utc, offset);
    }
    WaitsAgreeExactly(schedule, offset);
  }

  lemma AgreeMeansSameWait(schedule: WeeklyCalendar, utc: nat, offset: nat)
    requires schedule.Valid() && schedule.ranges != [] && utc < MAX_WEEKLY_MINS
    requires forall r | r in schedule.ranges :: r.start < MAX_WEEKLY_MINS
    ensures schedule.RemainingTo(utc).Some? && schedule.NextWindowMinuteInWeek(After(utc, offset)).Some?
    ensures AnnouncementsAgree(schedule, utc, offset) <==>
            schedule.RemainingTo(utc) == schedule.RemainingTo(After(utc, offset))
  {
    var local := After(utc, offset);
    SearchesAreShortest(schedule, utc);
    SearchesAreShortest(schedule, local);
    AfterInWeek(local, schedule.RemainingTo(utc).value);
    AfterInWeek(local, schedule.RemainingTo(local).value);
  }

  /** One hour from Monday midnight. */
  const MONDAY_HOUR := PeriodicIntervalInput("Mon", "0:00", 60)

  lemma OneWindowCalendar(w: WeeklyWindow)
    ensures CalendarOf([w]) == WeeklyCalendar([w.RangeWeeklyMinutes()])
  {
    var windows := [w];
    assert windows[1..] == [] && SortedRanges(windows[1..]) == [];
  }

  lemma OneIntervalSchedule(entry: PeriodicIntervalInput)
    requires IsUsable(entry) && StartOf(entry) + entry.lengthMinutes <= MAX_WEEKLY_MINS
    ensures var start := StartOf(entry);
            Schedule([entry]) == Ok(WeeklyCalendar([Range(start, start + entry.lengthMinutes + 1)]))
  {
    EntryIsCut(entry);
    hide EntryWindows, IsUsable, StartOf, CalendarOf;
    var windows := EntryWindows(entry).value;
    assert [] + windows == windows == [windows[0]];
    assert CollectWindows(EntryWindows, [entry], 0) == Ok([]);
    assert AllWindows([entry]) == Ok(windows);
    OneWindowCalendar(windows[0]);
  }

  lemma ParsedStart(entry: PeriodicIntervalInput, day: Weekday, hour: uint8, minute: uint8)
    requires WeekdayFromString(entry.startDay) == Some(day) && TimeFromString(entry.startTime) == Some((hour, minute))
    requires 1 <= entry.lengthMinutes <= MAX_WEEKLY_MINS
    ensures IsUsable(entry) && StartOf(entry) == TimeAsWeeklyMinute(day, hour, minute)
  {
  }

  lemma MidnightParses()
    ensures TimeFromString("0:00") == Some((0, 0))
  {
    var zero: uint8 := 0;
    ClockTextParses(zero, zero);
    hide TimeFromString;
    assert ClockText(zero, zero) == "0:00";
  }

  lemma MondayHourSchedule()
    ensures Schedule([MONDAY_HOUR]) == Ok(WeeklyCalendar([Range(0, 61)]))
  {
    MidnightParses();
    ShortNameParses(Mon);
    hide WeekdayFromString, TimeFromString, IsUsable, StartOf, Schedule;
    ParsedStart(MONDAY_HOUR, Mon, 0, 0);
    OneIntervalSchedule(MONDAY_HOUR);
  }

  lemma SundayEvening(calendar: WeeklyCalendar)
    requires calendar.ranges == [Range(0, 61)]
    ensures calendar.ContainsMinute(0) && calendar.RemainingTo(9960) == Some(120)
    ensures TimeAsWeeklyMinute(Sun, 22, 0) == 9960 && After(9960, 120) == 0
  {
    assert calendar.ranges[0].Covers(0);
    assert FirstFrom(calendar.ranges[1..], 9960) == None;
  }

  lemma TwoHoursText()
    ensures HumanRemaining(120) == "in 2h 0m"
  {
    hide PrintNat;
    SmallNumber(2);
    SmallNumber(0);
    assert Parts(0, 2, 0) == Part(2, 'h') + Part(0, 'm');
  }

  lemma SmallNumber(n: nat)
    requires n < 10
    ensures PrintNat(n) == [DigitOf(n)]
  {
  }

  /**
   * The announcements need not agree: two hours ahead of UTC, at 22:00 UTC on Sunday, the
   * window that starts on Monday at midnight has begun, and two hours of waiting are
   * announced.
   */
  lemma ZoneIsIgnored()
    ensures var utc := TimeAsWeeklyMinute(Sun, 22, 0);
            && Schedule([MONDAY_HOUR]).Ok?
            && Schedule([MONDAY_HOUR]).value.ContainsMinute(After(utc, 120))
            && Schedule([MONDAY_HOUR]).value.RemainingTo(utc) == Some(120)
            && HumanRemaining(120) == "in 2h 0m"
  {
    hide *;
    MondayHourSchedule();
    SundayEvening(Schedule([MONDAY_HOUR]).value);
    TwoHoursText();
  }
}
