/** Decimal numbers in text, and splitting a text at a separator. */
module Text {
  import opened Wrappers

  predicate IsDigit(c: char) {
    '0' <= c <= '9'
  }

  function DigitOf(n: nat): char
    requires n < 10
  {
    '0' + n as char
  }

  function DigitValue(c: char): nat
    requires IsDigit(c)
  {
    (c - '0') as nat
  }

  /** The plain decimal text of a number, as an unpadded format placeholder prints it. */
  function PrintNat(n: nat): string {
    if n < 10 then [DigitOf(n)] else PrintNat(n / 10) + [DigitOf(n % 10)]
  }

  /** The value of a run of decimal digits; nothing if any other character occurs. */
  function DecimalValue(s: string): Option<nat> {
    if s == [] then Some(0)
    else if !IsDigit(s[|s| - 1]) then None
    else
      match DecimalValue(s[..|s| - 1])
      case None => None
      case Some(value) => Some(value * 10 + DigitValue(s[|s| - 1]))
  }

  /**
   * Parse an unsigned machine integer whose largest value is `limit`: an optional
   * plus sign, then at least one digit, and nothing else.
   */
  function ParseUnsigned(s: string, limit: nat): Option<nat> {
    var digits := if |s| > 1 && s[0] == '+' then s[1..] else s;
    if digits == [] then None
    else
      match DecimalValue(digits)
      case None => None
      case Some(value) => if value <= limit then Some(value) else None
  }

  lemma {:induction false} PrintedValue(n: nat)
    ensures PrintNat(n) != [] && forall c | c in PrintNat(n) :: IsDigit(c)
    ensures DecimalValue(PrintNat(n)) == Some(n)
  {
    if n < 10 {
      assert PrintNat(n)[..0] == [];
    } else {
      PrintedValue(n / 10);
      assert PrintNat(n)[..|PrintNat(n)| - 1] == PrintNat(n / 10);
    }
  }

  /** No leading zero is printed. */
  lemma {:induction false} PrintedIsShort(n: nat)
    ensures |PrintNat(n)| == 1 <==> n < 10
    ensures n > 0 ==> PrintNat(n)[0] != '0'
  {
    if n >= 10 {
      PrintedIsShort(n / 10);
      PrintedValue(n / 10);
    }
  }

  lemma ParsePrinted(n: nat, limit: nat)
    requires n <= limit
    ensures ParseUnsigned(PrintNat(n), limit) == Some(n)
  {
    PrintedValue(n);
    assert PrintNat(n)[0] in PrintNat(n);
  }

  /** A leading zero, the padding of a two-place field, does not change the value read. */
  lemma ParsePadded(n: nat, limit: nat)
    requires n < 10 && n <= limit
    ensures ParseUnsigned("0" + PrintNat(n), limit) == Some(n)
  {
    var s := "0" + PrintNat(n);
    assert s[..1] == "0" && "0"[..0] == [];
    assert DecimalValue("0") == Some(0);
  }

  /** The fields between separators; a text without a separator is one field. */
  function Split(s: string, sep: char): seq<string> {
    if s == [] then [[]]
    else
      var rest := Split(s[1..], sep);
      if s[0] == sep then [[]] + rest
      else if rest == [] then [[s[0]]]
      else [[s[0]] + rest[0]] + rest[1..]
  }

  lemma {:induction false} SplitPlain(s: string, sep: char)
    requires sep !in s
    ensures Split(s, sep) == [s]
  {
    if s != [] {
      SplitPlain(s[1..], sep);
      assert [s[0]] + s[1..] == s;
    }
  }

  lemma {:induction false} SplitIsNonempty(s: string, sep: char)
    ensures Split(s, sep) != []
  {
    if s != [] { SplitIsNonempty(s[1..], sep); }
  }

  lemma {:induction false} OneFieldIsPlain(s: string, sep: char)
    requires |Split(s, sep)| == 1
    ensures sep !in s && Split(s, sep) == [s]
  {
    if s != [] {
      SplitIsNonempty(s[1..], sep);
      OneFieldIsPlain(s[1..], sep);
      assert s == [s[0]] + s[1..];
    }
  }

  /** A text of two fields is these fields with one separator between them. */
  lemma {:induction false} TwoFieldsJoin(s: string, sep: char)
    requires |Split(s, sep)| == 2
    ensures var fields := Split(s, sep);
            sep !in fields[0] && sep !in fields[1] && s == fields[0] + [sep] + fields[1]
  {
    assert s == [s[0]] + s[1..];
    SplitIsNonempty(s[1..], sep);
    if s[0] == sep {
      OneFieldIsPlain(s[1..], sep);
    } else {
      TwoFieldsJoin(s[1..], sep);
    }
  }

  /** A text has a decimal value exactly when it is all digits. */
  lemma {:induction false} DecimalExactly(s: string)
    ensures DecimalValue(s).Some? <==> forall c | c in s :: IsDigit(c)
  {
    if s != [] {
      DecimalExactly(s[..|s| - 1]);
      assert s == s[..|s| - 1] + [s[|s| - 1]];
    }
  }

  /**
   * A text is a number of the machine type exactly when it is digits, after a plus sign at most, with
   * a value within bounds.
   */
  lemma ParsesExactly(s: string, limit: nat, n: nat)
    ensures ParseUnsigned(s, limit) == Some(n) <==>
            exists digits :: IsNumeral(s, digits) && DecimalValue(digits) == Some(n) && n <= limit
  {
    var digits := if |s| > 1 && s[0] == '+' then s[1..] else s;
    if ParseUnsigned(s, limit) == Some(n) {
      DecimalExactly(digits);
      assert s == digits || s == ['+'] + digits;
      assert IsNumeral(s, digits);
    }
    if other :| IsNumeral(s, other) && DecimalValue(other) == Some(n) && n <= limit {
      assert other[0] in other;
      assert other == digits;
    }
  }

  /** `s` is `digits`, one digit or more, perhaps after a plus sign. */
  predicate IsNumeral(s: string, digits: string) {
    && digits != [] && (forall c | c in digits :: IsDigit(c))
    && (s == digits || s == ['+'] + digits)
  }

  lemma {:induction false} SplitJoined(a: string, b: string, sep: char)
    requires sep !in a && sep !in b
    ensures Split(a + [sep] + b, sep) == [a, b]
  {
    var s := a + [sep] + b;
    if a == [] {
      assert s[1..] == b;
      SplitPlain(b, sep);
    } else {
      assert s[1..] == a[1..] + [sep] + b;
      SplitJoined(a[1..], b, sep);
      assert [a[0]] + a[1..] == a;
    }
  }
}
