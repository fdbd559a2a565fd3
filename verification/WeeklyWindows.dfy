/** Windows that recur every week, cut from timespans (src/weekly/mod.rs). */
module WeeklyWindows {
  import opened Wrappers
  import opened WeeklyTime

  /** A half-open range of weekly minutes. */
  datatype Range = Range(start: uint32, end: uint32) {
    predicate Covers(minute: nat) {
      start <= minute < end
    }
  }

  /** A timespan inside one week; `length` is in seconds. */
  datatype WeeklyWindow = WeeklyWindow(startDay: Weekday, startHour: uint8, startMinute: uint8, length: nat) {
    /** Window length in minutes, cut to 32 bits. */
    function LengthMinutes(): uint32 {
      length / 60 % (U32_MAX + 1)
    }

    /** Window start, in minutes since the beginning of the week. No step reaches the 32-bit limit. */
    function StartMinutes(): (start: uint32)
      ensures start == startDay.FromMonday() * 1440 + startHour * 60 + startMinute
    {
      var hours := SaturatingMul(startHour, 60, U32_MAX);
      var days := SaturatingMul(SaturatingMul(startDay.FromMonday(), 24, U32_MAX), 60, U32_MAX);
      SaturatingAdd(SaturatingAdd(days, hours, U32_MAX), startMinute, U32_MAX)
    }

    /** Window end, in minutes since the beginning of the week. */
    function EndMinutes(): uint32 {
      SaturatingAdd(StartMinutes(), LengthMinutes(), U32_MAX)
    }

    /** The half-open range that the calendar stores: one past the end, so that the last minute is included. */
    function RangeWeeklyMinutes(): (range: Range)
      ensures range.start < range.end
    {
      Range(StartMinutes(), SaturatingAdd(EndMinutes(), 1, U32_MAX))
    }
  }

  datatype TimespanError = InvalidStart | InvalidLength

  /** The windows of a timespan: cut at the end of the week, the rest wrapped to Monday. */
  function TimespanWindows(day: Weekday, hour: uint8, minute: uint8, length: nat)
    : Result<seq<WeeklyWindow>, TimespanError>
  {
    if !(hour <= 24 && minute <= 59) then Err(InvalidStart)
    else if !CheckDuration(length) then Err(InvalidLength)
    else
      var remaining := Carried(day, hour, minute, length);
      var chopped: nat := length - remaining;
      if !CheckDuration(chopped) then Err(InvalidLength)
      else if remaining == 0 then Ok([WeeklyWindow(day, hour, minute, chopped)])
      else if !CheckDuration(remaining) then Err(InvalidLength)
      else Ok([WeeklyWindow(day, hour, minute, chopped), WeeklyWindow(Mon, 0, 0, remaining)])
  }

  /** The seconds of a timespan that lie past the end of the week: never more than its length. */
  function Carried(day: Weekday, hour: uint8, minute: uint8, length: nat): (seconds: nat)
    ensures 0 < length ==> seconds < length
    ensures length == 0 ==> seconds == 0
  {
    var start := TimeAsWeeklyMinute(day, hour, minute);
    SaturatingSub(SaturatingAdd(SaturatingMul(start, 60, U64_MAX), length, U64_MAX), MAX_WEEKLY_SECS)
  }

  /** Parse a timespan into weekly windows. */
  method ParseTimespan(day: Weekday, hour: uint8, minute: uint8, length: nat)
    returns (parsed: Result<seq<WeeklyWindow>, TimespanError>)
    ensures parsed == TimespanWindows(day, hour, minute, length)
  {
    if !(hour <= 24 && minute <= 59) {
      return Err(InvalidStart);
    }
    if !CheckDuration(length) {
      return Err(InvalidLength);
    }
    var remaining := Carried(day, hour, minute, length);
    var chopped: nat := length - remaining;
    if !CheckDuration(chopped) {
      return Err(InvalidLength);
    }
    var windows := [WeeklyWindow(day, hour, minute, chopped)];
    if remaining > 0 {
      if !CheckDuration(remaining) {
        return Err(InvalidLength);
      }
      windows := windows + [WeeklyWindow(Mon, 0, 0, remaining)];
      assert windows == [WeeklyWindow(day, hour, minute, chopped), WeeklyWindow(Mon, 0, 0, remaining)];
    }
    return Ok(windows);
  }

  function TotalLength(windows: seq<WeeklyWindow>): nat {
    if windows == [] then 0 else windows[0].length + TotalLength(windows[1..])
  }

  lemma TotalOfOneOrTwo(windows: seq<WeeklyWindow>)
    requires 1 <= |windows| <= 2
    ensures TotalLength(windows) == windows[0].length + if |windows| == 2 then windows[1].length else 0
  {
  }

  /** When parsing succeeds, and that it loses no second of the timespan. */
  lemma TimespanConserved(day: Weekday, hour: uint8, minute: uint8, length: nat)
    ensures var parsed := TimespanWindows(day, hour, minute, length);
            && (parsed.Ok? <==> hour <= 24 && minute <= 59 && 0 < length <= 604800)
            && (parsed == Err(InvalidStart) <==> hour > 24 || minute > 59)
            && (parsed.Ok? ==>
                  && 1 <= |parsed.value| <= 2
                  && TotalLength(parsed.value) == length
                  && forall w | w in parsed.value :: 0 < w.length <= 604800)
  {
    var parsed := TimespanWindows(day, hour, minute, length);
    if parsed.Ok? {
      TotalOfOneOrTwo(parsed.value);
    }
  }

  /** The length of a window in minutes is that in seconds, rounded down. */
  lemma LengthRoundsDown(w: WeeklyWindow)
    requires w.length <= MAX_WEEKLY_SECS
    ensures 60 * w.LengthMinutes() <= w.length < 60 * (w.LengthMinutes() + 1)
  {
  }

  lemma CarriedMinutes(day: Weekday, hour: uint8, minute: uint8, minutes: nat)
    requires minutes <= MAX_WEEKLY_MINS
    ensures Carried(day, hour, minute, minutes * 60) ==
            60 * Max(TimeAsWeeklyMinute(day, hour, minute) + minutes - MAX_WEEKLY_MINS, 0)
  {
  }

  lemma WholeMinutes(w: WeeklyWindow, minutes: nat)
    requires w.length == 60 * minutes && minutes <= MAX_WEEKLY_MINS
    ensures w.LengthMinutes() == minutes && w.EndMinutes() == w.StartMinutes() + minutes
  {
  }

  /** The ranges of a timespan of whole minutes, in closed form. */
  lemma TimespanRanges(day: Weekday, hour: uint8, minute: uint8, minutes: nat)
    requires hour <= 24 && minute <= 59 && 1 <= minutes <= MAX_WEEKLY_MINS
    ensures var windows := TimespanWindows(day, hour, minute, minutes * 60);
            var start := day.FromMonday() * 1440 + hour * 60 + minute;
            var clamped := TimeAsWeeklyMinute(day, hour, minute);
            var kept := Min(minutes, MAX_WEEKLY_MINS - clamped);
            && windows.Ok?
            && |windows.value| == (if kept < minutes then 2 else 1)
            && windows.value[0].StartMinutes() == start && windows.value[0].LengthMinutes() == kept
            && windows.value[0].EndMinutes() == start + kept
            && (kept < minutes ==>
                  && windows.value[1].StartMinutes() == 0 && windows.value[1].LengthMinutes() == minutes - kept
                  && windows.value[1].EndMinutes() == minutes - kept)
  {
    TimespanConserved(day, hour, minute, minutes * 60);
    CarriedMinutes(day, hour, minute, minutes);
    var windows := TimespanWindows(day, hour, minute, minutes * 60).value;
    var kept := Min(minutes, MAX_WEEKLY_MINS - TimeAsWeeklyMinute(day, hour, minute));
    WholeMinutes(windows[0], kept);
    if kept < minutes { WholeMinutes(windows[1], minutes - kept); }
  }

  /**
   * Timespans of whole minutes: at least one minute in each window, lengths that add up,
   * and ends within the week exactly when the hour is a clock hour or the timespan does
   * not reach the end of the week.
   */
  lemma TimespanFitsWeek(day: Weekday, hour: uint8, minute: uint8, minutes: nat)
    requires hour <= 24 && minute <= 59 && 1 <= minutes <= MAX_WEEKLY_MINS
    ensures var windows := TimespanWindows(day, hour, minute, minutes * 60).value;
            var start := day.FromMonday() * 1440 + hour * 60 + minute;
            && (forall w | w in windows :: 1 <= w.LengthMinutes())
            && windows[0].LengthMinutes() + (if |windows| == 2 then windows[1].LengthMinutes() else 0) == minutes
            && ((forall w | w in windows :: w.EndMinutes() <= MAX_WEEKLY_MINS) <==>
                hour <= 23 || start + minutes <= MAX_WEEKLY_MINS)
  {
    TimespanRanges(day, hour, minute, minutes);
    var windows := TimespanWindows(day, hour, minute, minutes * 60).value;
    assert windows[0] in windows;
  }
}
