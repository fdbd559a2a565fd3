/** The text for the time left until the next window (src/weekly/mod.rs). */
module HumanDuration {
  import opened Text
  import opened WeeklyTime

  /** A part of the text: a space, a number and the letter of its unit. */
  function Part(n: nat, letter: char): string {
    " " + (PrintNat(n) + [letter])
  }

  /** Days (within a week), hours and minutes; leading zero parts are left out, minutes never are. */
  function HumanRemaining(minutes: nat): string {
    if minutes == 0 then "now"
    else
      var days := minutes / 1440 % 7;
      var hours := minutes / 60 % 24;
      "in" + Parts(days, hours, minutes % 60)
  }

  function Parts(days: nat, hours: nat, minutes: nat): string {
    if days > 0 then Part(days, 'd') + (Part(hours, 'h') + Part(minutes, 'm'))
    else if hours > 0 then Part(hours, 'h') + Part(minutes, 'm')
    else Part(minutes, 'm')
  }

  /** The minutes that a number stands for before a letter. */
  function InUnit(number: nat, letter: char): nat {
    if letter == 'd' then number * 1440
    else if letter == 'h' then number * 60
    else if letter == 'm' then number
    else 0
  }

  /** Read such a text back: each number counts in the unit of the letter behind it. */
  function ReadDuration(s: string, number: nat, total: nat): nat {
    if s == [] then total
    else if IsDigit(s[0]) then ReadDuration(s[1..], number * 10 + DigitValue(s[0]), total)
    else ReadDuration(s[1..], 0, total + InUnit(number, s[0]))
  }

  lemma ReadDigit(c: char, rest: string, number: nat, total: nat)
    requires IsDigit(c)
    ensures ReadDuration([c] + rest, number, total) == ReadDuration(rest, number * 10 + DigitValue(c), total)
  {
  }

  lemma ReadLetter(c: char, rest: string, number: nat, total: nat)
    requires !IsDigit(c)
    ensures ReadDuration([c] + rest, number, total) == ReadDuration(rest, 0, total + InUnit(number, c))
  {
  }

  lemma {:induction false} ReadNumber(n: nat, rest: string, total: nat)
    ensures ReadDuration(PrintNat(n) + rest, 0, total) == ReadDuration(rest, n, total)
  {
    hide ReadDuration;
    if n < 10 {
      ReadDigit(DigitOf(n), rest, 0, total);
    } else {
      var last := DigitOf(n % 10);
      ReadNumber(n / 10, [last] + rest, total);
      assert PrintNat(n) + rest == PrintNat(n / 10) + ([last] + rest);
      ReadDigit(last, rest, n / 10, total);
    }
  }

  lemma ReadPart(n: nat, letter: char, rest: string, total: nat)
    requires !IsDigit(letter)
    ensures ReadDuration(Part(n, letter) + rest, 0, total) == ReadDuration(rest, 0, total + InUnit(n, letter))
  {
    assert Part(n, letter) + rest == [' '] + (PrintNat(n) + ([letter] + rest));
    ReadLetter(' ', PrintNat(n) + ([letter] + rest), 0, total);
    ReadNumber(n, [letter] + rest, total);
    ReadLetter(letter, rest, n, total);
  }

  lemma ReadLastPart(n: nat, letter: char, total: nat)
    requires !IsDigit(letter)
    ensures ReadDuration(Part(n, letter), 0, total) == total + InUnit(n, letter)
  {
    ReadPart(n, letter, [], total);
    assert Part(n, letter) + [] == Part(n, letter);
  }

  lemma ReadParts(days: nat, hours: nat, minutes: nat)
    ensures ReadDuration(Parts(days, hours, minutes), 0, 0) == days * 1440 + hours * 60 + minutes
  {
    if days > 0 {
      ReadPart(days, 'd', Part(hours, 'h') + Part(minutes, 'm'), 0);
      ReadPart(hours, 'h', Part(minutes, 'm'), days * 1440);
    } else if hours > 0 {
      ReadPart(hours, 'h', Part(minutes, 'm'), 0);
    }
    ReadLastPart(minutes, 'm', days * 1440 + hours * 60);
  }

  lemma ReadIn(rest: string)
    ensures ReadDuration("in" + rest, 0, 0) == ReadDuration(rest, 0, 0)
  {
  }

  lemma ReadNow()
    ensures ReadDuration("now", 0, 0) == 0
  {
  }

  /**
   * How a wait is written: "now" for none, and otherwise days, hours and minutes after "in",
   * where hours are left out for less than one, and days for less than a day.
   */
  lemma TextShape(minutes: nat)
    ensures minutes == 0 ==> HumanRemaining(minutes) == "now"
    ensures 0 < minutes < 60 ==> HumanRemaining(minutes) == "in " + PrintNat(minutes) + "m"
    ensures 60 <= minutes < 1440 ==>
              HumanRemaining(minutes) == "in " + PrintNat(minutes / 60) + "h " + PrintNat(minutes % 60) + "m"
    ensures 1440 <= minutes < MAX_WEEKLY_MINS ==>
              HumanRemaining(minutes) ==
              "in " + PrintNat(minutes / 1440) + "d " + PrintNat(minutes / 60 % 24) + "h " + PrintNat(minutes % 60) + "m"
  {
    hide PrintNat;
    var d, h, m := minutes / 1440, minutes / 60 % 24, minutes % 60;
    if 0 < minutes {
      PartsShape(minutes / 1440 % 7, h, m);
    }
    if minutes < MAX_WEEKLY_MINS {
      assert d < 7 && d % 7 == d;
    }
    if minutes < 1440 {
      assert d == 0 && minutes / 60 < 24 && minutes / 60 % 24 == minutes / 60;
    }
    if minutes < 60 {
      assert h == 0 && m == minutes;
    }
    hide Parts;
  }

  lemma PartsShape(days: nat, hours: nat, minutes: nat)
    ensures "in" + Parts(days, hours, minutes) ==
            if days > 0 then "in " + PrintNat(days) + "d " + PrintNat(hours) + "h " + PrintNat(minutes) + "m"
            else if hours > 0 then "in " + PrintNat(hours) + "h " + PrintNat(minutes) + "m"
            else "in " + PrintNat(minutes) + "m"
  {
    OnePart(PrintNat(minutes));
    TwoParts(PrintNat(hours), PrintNat(minutes));
    ThreeParts(PrintNat(days), PrintNat(hours), PrintNat(minutes));
    hide PrintNat;
  }

  lemma OnePart(c: string)
    ensures "in" + (" " + (c + ['m'])) == "in " + c + "m"
  {
  }

  lemma TwoParts(b: string, c: string)
    ensures "in" + ((" " + (b + ['h'])) + (" " + (c + ['m']))) == "in " + b + "h " + c + "m"
  {
  }

  lemma ThreeParts(a: string, b: string, c: string)
    ensures "in" + ((" " + (a + ['d'])) + ((" " + (b + ['h'])) + (" " + (c + ['m'])))) ==
            "in " + a + "d " + b + "h " + c + "m"
  {
    TwoParts(b, c);
  }

  lemma PartsOfMinutes(minutes: nat)
    ensures minutes / 1440 % 7 * 1440 + minutes / 60 % 24 * 60 + minutes % 60 == minutes % MAX_WEEKLY_MINS
    ensures minutes < MAX_WEEKLY_MINS ==> minutes % MAX_WEEKLY_MINS == minutes
  {
    var d, h, m := minutes / 1440, minutes / 60 % 24, minutes % 60;
    assert minutes / 60 / 24 == d;
    assert minutes == d * 1440 + h * 60 + m;
    var w, dd := d / 7, d % 7;
    var r := dd * 1440 + h * 60 + m;
    assert minutes == w * 10080 + r && r < 10080;
  }

  lemma TextHoldsParts(minutes: nat)
    ensures ReadDuration(HumanRemaining(minutes), 0, 0) ==
            minutes / 1440 % 7 * 1440 + minutes / 60 % 24 * 60 + minutes % 60
  {
    if minutes == 0 {
      ReadNow();
    } else {
      var days, hours := minutes / 1440 % 7, minutes / 60 % 24;
      ReadIn(Parts(days, hours, minutes % 60));
      ReadParts(days, hours, minutes % 60);
    }
  }

  /**
   * Reading the text back gives the minutes modulo a week. Every wait that the calendar
   * produces is under a week, so its text determines it.
   */
  lemma HumanRemainingReadsBack(minutes: nat)
    ensures ReadDuration(HumanRemaining(minutes), 0, 0) == minutes % MAX_WEEKLY_MINS
    ensures minutes < MAX_WEEKLY_MINS ==> ReadDuration(HumanRemaining(minutes), 0, 0) == minutes
  {
    hide *;
    TextHoldsParts(minutes);
    PartsOfMinutes(minutes);
  }
}
