/** Points in a week, their parts and their texts (src/weekly/utils.rs). */
module WeeklyTime {
  import opened Wrappers
  import opened Text

  /** A whole week, in minutes. */
  const MAX_WEEKLY_MINS: nat := 7 * 24 * 60

  /** A whole week, in seconds. */
  const MAX_WEEKLY_SECS: nat := MAX_WEEKLY_MINS * 60

  datatype Weekday = Mon | Tue | Wed | Thu | Fri | Sat | Sun {
    function FromMonday(): (days: nat)
      ensures days <= 6
    {
      match this
      case Mon => 0 case Tue => 1 case Wed => 2 case Thu => 3 case Fri => 4 case Sat => 5 case Sun => 6
    }

    /** The displayed short name. */
    function ToString(): string {
      match this
      case Mon => "Mon" case Tue => "Tue" case Wed => "Wed" case Thu => "Thu"
      case Fri => "Fri" case Sat => "Sat" case Sun => "Sun"
    }

    /** The full English name. */
    function LongName(): string {
      match this
      case Mon => "Monday" case Tue => "Tuesday" case Wed => "Wednesday" case Thu => "Thursday"
      case Fri => "Friday" case Sat => "Saturday" case Sun => "Sunday"
    }
  }

  function TimeAsWeeklyMinute(day: Weekday, hour: uint8, minute: uint8): (weeklyMinute: nat)
    ensures weeklyMinute < MAX_WEEKLY_MINS
  {
    day.FromMonday() * 24 * 60 + Min(hour, 23) * 60 + Min(minute, 59)
  }

  /** Split a point in the week; the source asserts that it is within the week. */
  function WeeklyMinuteAsWeekdayTime(weeklyMinute: nat): (Weekday, uint8, uint8)
    requires weeklyMinute < MAX_WEEKLY_MINS
  {
    var weekday :=
      match weeklyMinute / (60 * 24)
      case 0 => Mon case 1 => Tue case 2 => Wed case 3 => Thu case 4 => Fri case 5 => Sat case _ => Sun;
    (weekday, weeklyMinute % (60 * 24) / 60, weeklyMinute % 60)
  }

  /** A duration of whole seconds is usable when it is positive and at most a week. */
  predicate CheckDuration(seconds: nat) {
    0 < seconds <= MAX_WEEKLY_SECS
  }

  function ToLower(c: char): char {
    if 'A' <= c <= 'Z' then c + 32 as char else c
  }

  function Lowercase(s: string): (t: string)
    ensures |t| == |s|
  {
    if s == [] then [] else [ToLower(s[0])] + Lowercase(s[1..])
  }

  /** The accepted names of the days. The source spells the long name of Tuesday wrongly. */
  const DAY_NAMES: seq<(string, string, Weekday)> := [
    ("mon", "monday", Mon),
    ("tue", "tuesady", Tue),
    ("wed", "wednesday", Wed),
    ("thu", "thursday", Thu),
    ("fri", "friday", Fri),
    ("sat", "saturday", Sat),
    ("sun", "sunday", Sun)
  ]

  /** The day of the first entry, from the `k`th on, that has the name. */
  function DayNamed(name: string, k: nat): Option<Weekday>
    requires k <= |DAY_NAMES|
    decreases |DAY_NAMES| - k
  {
    if k == |DAY_NAMES| then None
    else if name == DAY_NAMES[k].0 || name == DAY_NAMES[k].1 then Some(DAY_NAMES[k].2)
    else DayNamed(name, k + 1)
  }

  /** Parse an English weekday name. */
  function WeekdayFromString(input: string): Option<Weekday> {
    DayNamed(Lowercase(input), 0)
  }

  /** Parse a 24-hour time. */
  function TimeFromString(input: string): (time: Option<(uint8, uint8)>)
    ensures time.Some? ==> time.value.0 <= 23 && time.value.1 <= 59
  {
    var fields := Split(input, ':');
    if |fields| != 2 then None
    else
      match (ParseUnsigned(fields[0], U8_MAX), ParseUnsigned(fields[1], U8_MAX))
      case (Some(hour), Some(minute)) => if hour <= 23 && minute <= 59 then Some((hour, minute)) else None
      case _ => None
  }

  /** The clock text of a window start: the hour unpadded, the minute padded with zeros to two places. */
  function ClockText(hour: uint8, minute: uint8): string {
    PrintNat(hour) + ":" + (if minute < 10 then "0" else "") + PrintNat(minute)
  }

  lemma SplitMinute(w: nat)
    requires w < MAX_WEEKLY_MINS
    ensures var (day, hour, minute) := WeeklyMinuteAsWeekdayTime(w);
            hour <= 23 && minute <= 59 && TimeAsWeeklyMinute(day, hour, minute) == w
  {
  }

  /** The clock text: the hour without a leading zero, a colon, and the minute in two digits. */
  lemma ClockTextShape(hour: uint8, minute: uint8)
    requires hour <= 23 && minute <= 59
    ensures ClockText(hour, minute) ==
            (if hour < 10 then [DigitOf(hour)] else [DigitOf(hour / 10), DigitOf(hour % 10)])
            + ":" + [DigitOf(minute / 10), DigitOf(minute % 10)]
  {
    TwoDigits(hour);
    TwoDigits(minute);
    assert DigitOf(0) == '0';
  }

  lemma TwoDigits(n: nat)
    requires n < 100
    ensures PrintNat(n) == if n < 10 then [DigitOf(n)] else [DigitOf(n / 10), DigitOf(n % 10)]
  {
    assert n / 10 < 10;
  }

  /** Hours and minutes that no clock shows count as the last ones that it does. */
  lemma ClampExactly(day: Weekday, hour: uint8, minute: uint8)
    ensures hour > 23 ==> TimeAsWeeklyMinute(day, hour, minute) == TimeAsWeeklyMinute(day, 23, minute)
    ensures minute > 59 ==> TimeAsWeeklyMinute(day, hour, minute) == TimeAsWeeklyMinute(day, hour, 59)
    ensures hour <= 23 && minute <= 59 ==>
              TimeAsWeeklyMinute(day, hour, minute) == day.FromMonday() * 1440 + hour * 60 + minute
  {
  }

  lemma ClockTextParses(hour: uint8, minute: uint8)
    requires hour <= 23 && minute <= 59
    ensures TimeFromString(ClockText(hour, minute)) == Some((hour, minute))
  {
    var right := (if minute < 10 then "0" else "") + PrintNat(minute);
    PrintedValue(hour);
    PrintedValue(minute);
    SplitJoined(PrintNat(hour), right, ':');
    assert ClockText(hour, minute) == PrintNat(hour) + [':'] + right;
    ParsePrinted(hour, U8_MAX);
    if minute < 10 {
      ParsePadded(minute, U8_MAX);
    } else {
      assert right == PrintNat(minute);
      ParsePrinted(minute, U8_MAX);
    }
  }

  /** The text is a numeral of that value: digits, perhaps after a plus sign. */
  ghost predicate Denotes(s: string, n: nat) {
    exists digits :: IsNumeral(s, digits) && DecimalValue(digits) == Some(n)
  }

  ghost predicate IsClockText(input: string, left: string, right: string, hour: nat, minute: nat) {
    input == left + [':'] + right && Denotes(left, hour) && Denotes(right, minute) && hour <= 23 && minute <= 59
  }

  lemma DenotesExactly(s: string, n: nat)
    requires n <= U8_MAX
    ensures Denotes(s, n) <==> ParseUnsigned(s, U8_MAX) == Some(n)
    ensures Denotes(s, n) ==> ':' !in s
  {
    var limit: nat := U8_MAX;
    hide ParseUnsigned, DecimalValue;
    ParsesExactly(s, limit, n);
  }

  /** Which texts are times: two numerals with a colon between them, for an hour of the clock and a minute. */
  lemma TimeParsesExactly(input: string, hour: uint8, minute: uint8)
    ensures TimeFromString(input) == Some((hour, minute)) <==>
            exists left, right :: IsClockText(input, left, right, hour, minute)
  {
    hide ParseUnsigned, Denotes;
    if TimeFromString(input) == Some((hour, minute)) {
      TwoFieldsJoin(input, ':');
      var fields := Split(input, ':');
      DenotesExactly(fields[0], hour);
      DenotesExactly(fields[1], minute);
      assert IsClockText(input, fields[0], fields[1], hour, minute);
    }
    if left, right :| IsClockText(input, left, right, hour, minute) {
      DenotesExactly(left, hour);
      DenotesExactly(right, minute);
      SplitJoined(left, right, ':');
    }
  }

  lemma {:induction false} LowercaseHead(s: string, k: nat)
    requires k < |s|
    ensures Lowercase(s)[k] == ToLower(s[k])
  {
    if k > 0 { LowercaseHead(s[1..], k - 1); }
  }

  lemma LowercaseOf3(s: string)
    requires |s| == 3
    ensures Lowercase(s) == [ToLower(s[0]), ToLower(s[1]), ToLower(s[2])]
  {
    LowercaseHead(s, 0);
    LowercaseHead(s, 1);
    LowercaseHead(s, 2);
  }

  ghost predicate IsName(name: string, k: nat)
    requires k < |DAY_NAMES|
  {
    name == DAY_NAMES[k].0 || name == DAY_NAMES[k].1
  }

  lemma {:induction false} DayFound(name: string, k: nat, j: nat)
    requires k <= j < |DAY_NAMES| && IsName(name, j)
    requires forall i: nat | k <= i < j :: !IsName(name, i)
    ensures DayNamed(name, k) == Some(DAY_NAMES[j].2)
    decreases j - k
  {
    if k < j {
      assert !IsName(name, k);
      DayFound(name, k + 1, j);
    }
  }

  lemma {:induction false} DayNotFound(name: string, k: nat)
    requires k <= |DAY_NAMES| && forall i: nat | k <= i < |DAY_NAMES| :: !IsName(name, i)
    ensures DayNamed(name, k) == None
    decreases |DAY_NAMES| - k
  {
    if k < |DAY_NAMES| {
      assert !IsName(name, k);
      DayNotFound(name, k + 1);
    }
  }

  /** The second accepted name of a day. */
  function Spelling(day: Weekday): string {
    if day == Tue then "Tuesady" else day.LongName()
  }

  /** The same text but for the case of its letters. */
  predicate SameLetters(a: string, b: string) {
    Lowercase(a) == Lowercase(b)
  }

  lemma DayAt(k: nat)
    requires k < |DAY_NAMES|
    ensures DAY_NAMES[k].2.FromMonday() == k
  {
  }

  lemma DayIsListed(day: Weekday)
    ensures day.FromMonday() < |DAY_NAMES| && DAY_NAMES[day.FromMonday()].2 == day
  {
  }

  lemma NameIsOfOneDay(name: string, k: nat)
    requires k < |DAY_NAMES| && IsName(name, k)
    ensures forall j: nat | j < |DAY_NAMES| && j != k :: !IsName(name, j)
  {
    assert name[0] == DAY_NAMES[k].0[0] && name[1] == DAY_NAMES[k].0[1];
  }

  lemma ShortNameLowered(day: Weekday)
    ensures Lowercase(day.ToString()) == DAY_NAMES[day.FromMonday()].0
  {
    LowercaseOf3(day.ToString());
  }

  lemma SpellingLowered(day: Weekday)
    ensures Lowercase(Spelling(day)) == DAY_NAMES[day.FromMonday()].1
  {
    hide Lowercase;
    var s := Spelling(day);
    forall k | 0 <= k < |s| ensures Lowercase(s)[k] == ToLower(s[k]) { LowercaseHead(s, k); }
  }

  /** A name parses as the day that has it. */
  lemma NameParses(input: string, k: nat)
    requires k < |DAY_NAMES| && IsName(Lowercase(input), k)
    ensures WeekdayFromString(input) == Some(DAY_NAMES[k].2)
  {
    hide DayNamed, Lowercase, DAY_NAMES;
    NameIsOfOneDay(Lowercase(input), k);
    DayFound(Lowercase(input), 0, k);
  }

  lemma OnlyNamesParse(input: string) returns (k: nat)
    requires WeekdayFromString(input).Some?
    ensures k < |DAY_NAMES| && IsName(Lowercase(input), k)
  {
    hide DayNamed, Lowercase, IsName;
    if forall j: nat | j < |DAY_NAMES| :: !IsName(Lowercase(input), j) {
      DayNotFound(Lowercase(input), 0);
    } else {
      k :| k < |DAY_NAMES| && IsName(Lowercase(input), k);
    }
  }

  /** Which texts name a day: its short name and its long one, in any case, the latter misspelled for Tuesday. */
  lemma WeekdayParsesExactly(input: string, day: Weekday)
    ensures WeekdayFromString(input) == Some(day) <==>
            SameLetters(input, day.ToString()) || SameLetters(input, Spelling(day))
  {
    hide WeekdayFromString, Lowercase, DAY_NAMES, Spelling, Weekday.FromMonday, Weekday.ToString;
    var d := day.FromMonday();
    DayIsListed(day);
    ShortNameLowered(day);
    SpellingLowered(day);
    if WeekdayFromString(input) == Some(day) {
      var k := OnlyNamesParse(input);
      NameParses(input, k);
      DayAt(k);
    } else if IsName(Lowercase(input), d) {
      NameParses(input, d);
    }
  }

  /** Lower-casing changes capital letters only, each into its small one. */
  lemma LowercaseExactly(s: string, k: nat)
    requires k < |s|
    ensures 'A' <= s[k] <= 'Z' ==> Lowercase(s)[k] as int - 'a' as int == s[k] as int - 'A' as int
    ensures !('A' <= s[k] <= 'Z') ==> Lowercase(s)[k] == s[k]
  {
    LowercaseHead(s, k);
  }

  lemma ShortNameParses(day: Weekday)
    ensures WeekdayFromString(day.ToString()) == Some(day)
  {
    WeekdayParsesExactly(day.ToString(), day);
  }

  /**
   * Every minute of the week survives being split, printed the way the next window is
   * announced, parsed back and recombined.
   */
  lemma PrintParseRoundTrip(w: nat)
    requires w < MAX_WEEKLY_MINS
    ensures var (day, hour, minute) := WeeklyMinuteAsWeekdayTime(w);
            var parsedDay := WeekdayFromString(day.ToString());
            var parsedTime := TimeFromString(ClockText(hour, minute));
            && parsedDay.Some? && parsedTime.Some?
            && TimeAsWeeklyMinute(parsedDay.value, parsedTime.value.0, parsedTime.value.1) == w
  {
    var (day, hour, minute) := WeeklyMinuteAsWeekdayTime(w);
    SplitMinute(w);
    ShortNameParses(day);
    ClockTextParses(hour, minute);
  }

  lemma TuesdayIsNoName(k: nat)
    requires k < |DAY_NAMES|
    ensures !IsName(Lowercase("Tuesday"), k)
  {
    var name := Lowercase("Tuesday");
    LowercaseHead("Tuesday", 0);
    LowercaseHead("Tuesday", 4);
    assert name[0] == 't' && name[4] == 'd' && |name| == 7;
  }

  /** The full names parse for every day but Tuesday, whose spelling in the parser is wrong. */
  lemma LongNameParsesExactly(day: Weekday)
    ensures WeekdayFromString(day.LongName()) == if day == Tue then None else Some(day)
  {
    if day == Tue {
      forall k: nat | k < |DAY_NAMES| ensures !IsName(Lowercase("Tuesday"), k) { TuesdayIsNoName(k); }
      DayNotFound(Lowercase("Tuesday"), 0);
    } else {
      SpellingLowered(day);
      DayFound(Lowercase(day.LongName()), 0, day.FromMonday());
    }
  }
}
