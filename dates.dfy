/** The due-date check of `add_task`: `datetime.strptime(s, '%Y-%m-%d')` succeeds.
    Python matches the format with a regular expression built from one pattern per
    directive, taking at each directive the first alternative that lets the match go
    on, then rejects any characters left over ("unconverted data remains"), then
    builds a `datetime`, which rejects a year outside 1..9999 and a day the month
    does not have. */
module Dates {
  import opened Wrappers

  datatype Date = Date(year: int, month: int, day: int)

  predicate IsDigit(c: char)
  {
    '0' <= c <= '9'
  }

  function DigitValue(c: char): (v: int)
    requires IsDigit(c)
    ensures 0 <= v <= 9
  {
    c as int - '0' as int
  }

  predicate IsLeapYear(y: int)
  {
    y % 4 == 0 && (y % 100 != 0 || y % 400 == 0)
  }

  /** The number of days of month `m` (1 to 12) in the proleptic Gregorian calendar. */
  function DaysInMonth(y: int, m: int): (n: int)
    requires 1 <= m <= 12
    ensures 28 <= n <= 31
  {
    if m == 2 then (if IsLeapYear(y) then 29 else 28)
    else if m == 4 || m == 6 || m == 9 || m == 11 then 30
    else 31
  }

  /** A calendar date that a Python `datetime` can hold. */
  predicate ValidDate(d: Date)
  {
    1 <= d.year <= 9999 && 1 <= d.month <= 12 && 1 <= d.day <= DaysInMonth(d.year, d.month)
  }

  /** A matched directive: its numeric value and how many characters it took. */
  datatype Field = Field(value: int, width: nat)

  /** `%m` followed by the literal `-`: the alternatives `1[0-2]`, `0[1-9]` and `[1-9]`,
      in that order; the width includes the separator. */
  function MonthField(t: string): (r: Option<Field>)
    ensures r.Some? ==> 1 <= r.value.value <= 12 && 2 <= r.value.width <= 3 && r.value.width <= |t|
  {
    if |t| >= 3 && t[0] == '1' && '0' <= t[1] <= '2' && t[2] == '-' then Some(Field(10 + DigitValue(t[1]), 3))
    else if |t| >= 3 && t[0] == '0' && '1' <= t[1] <= '9' && t[2] == '-' then Some(Field(DigitValue(t[1]), 3))
    else if |t| >= 2 && '1' <= t[0] <= '9' && t[1] == '-' then Some(Field(DigitValue(t[0]), 2))
    else None
  }

  /** `%d` at the end of the pattern: the first of `3[01]`, `[12]\d`, `0[1-9]`, `[1-9]`
      and ` [1-9]` that matches. */
  function DayField(t: string): (r: Option<Field>)
    ensures r.Some? ==> 1 <= r.value.value <= 31 && 1 <= r.value.width <= 2 && r.value.width <= |t|
  {
    if |t| >= 2 && t[0] == '3' && '0' <= t[1] <= '1' then Some(Field(30 + DigitValue(t[1]), 2))
    else if |t| >= 2 && '1' <= t[0] <= '2' && IsDigit(t[1]) then Some(Field(10 * DigitValue(t[0]) + DigitValue(t[1]), 2))
    else if |t| >= 2 && t[0] == '0' && '1' <= t[1] <= '9' then Some(Field(DigitValue(t[1]), 2))
    else if |t| >= 1 && '1' <= t[0] <= '9' then Some(Field(DigitValue(t[0]), 1))
    else if |t| >= 2 && t[0] == ' ' && '1' <= t[1] <= '9' then Some(Field(DigitValue(t[1]), 2))
    else None
  }

  /** The date `strptime(s, '%Y-%m-%d')` returns, or `None` where it raises `ValueError`. */
  function ParseDate(s: string): (r: Option<Date>)
    ensures r.Some? ==> ValidDate(r.value)
  {
    if |s| < 5 || !(IsDigit(s[0]) && IsDigit(s[1]) && IsDigit(s[2]) && IsDigit(s[3])) || s[4] != '-' then None
    else
      var year := 1000 * DigitValue(s[0]) + 100 * DigitValue(s[1]) + 10 * DigitValue(s[2]) + DigitValue(s[3]);
      match MonthField(s[5..])
      case None => None
      case Some(m) =>
        match DayField(s[5 + m.width..])
        case None => None
        case Some(d) =>
          if 5 + m.width + d.width != |s| then None
          else if ValidDate(Date(year, m.value, d.value)) then Some(Date(year, m.value, d.value))
          else None
  }

  /** How a one- or two-digit field below 10 can be written. */
  datatype Padding = ZeroPadded | Unpadded | SpacePadded

  function DigitChar(v: int): (c: char)
    requires 0 <= v <= 9
    ensures IsDigit(c) && DigitValue(c) == v
  {
    ('0' as int + v) as char
  }

  function FourDigits(y: int): (s: string)
    requires 0 <= y <= 9999
  {
    [DigitChar(y / 1000), DigitChar(y / 100 % 10), DigitChar(y / 10 % 10), DigitChar(y % 10)]
  }

  function TwoDigits(v: int, pad: Padding): (s: string)
    requires 1 <= v <= 99
  {
    if v >= 10 then [DigitChar(v / 10), DigitChar(v % 10)]
    else match pad
      case ZeroPadded => ['0', DigitChar(v)]
      case Unpadded => [DigitChar(v)]
      case SpacePadded => [' ', DigitChar(v)]
  }

  /** A date written as `YYYY-MM-DD`, where month and day below 10 may drop their
      leading zero and a day below 10 may have a space instead. */
  function Format(d: Date, monthPad: Padding, dayPad: Padding): (s: string)
    requires ValidDate(d)
  {
    FourDigits(d.year) + "-" + TwoDigits(d.month, monthPad) + "-" + TwoDigits(d.day, dayPad)
  }

  lemma FourDigitsValue(y: int)
    requires 0 <= y <= 9999
    ensures 1000 * (y / 1000) + 100 * (y / 100 % 10) + 10 * (y / 10 % 10) + y % 10 == y
  {
    var q1 := y / 10;
    var q2 := q1 / 10;
    var q3 := q2 / 10;
    Quotient100(y, q2, 10 * (q1 % 10) + y % 10);
    Quotient1000(y, q3, 100 * (q2 % 10) + 10 * (q1 % 10) + y % 10);
  }

  lemma MonthFieldOfFormat(m: int, pad: Padding, rest: string)
    requires 1 <= m <= 12 && pad != SpacePadded
    ensures MonthField(TwoDigits(m, pad) + "-" + rest) == Some(Field(m, |TwoDigits(m, pad)| + 1))
  {
  }

  lemma DayFieldOfFormat(d: int, pad: Padding)
    requires 1 <= d <= 31
    ensures DayField(TwoDigits(d, pad)) == Some(Field(d, |TwoDigits(d, pad)|))
  {
  }

  /** Every valid date, written with any padding Python accepts, parses back to itself. */
  lemma FormatParses(d: Date, monthPad: Padding, dayPad: Padding)
    requires ValidDate(d) && monthPad != SpacePadded
    ensures ParseDate(Format(d, monthPad, dayPad)) == Some(d)
  {
    var s := Format(d, monthPad, dayPad);
    var ms, ds := TwoDigits(d.month, monthPad), TwoDigits(d.day, dayPad);
    FourDigitsValue(d.year);
    assert s[5..] == ms + "-" + ds;
    MonthFieldOfFormat(d.month, monthPad, ds);
    assert s[5 + |ms| + 1..] == ds;
    DayFieldOfFormat(d.day, dayPad);
  }

  lemma MonthFieldIsFormat(t: string)
    requires MonthField(t).Some?
    ensures exists pad ::
      pad != SpacePadded && t[..MonthField(t).value.width] == TwoDigits(MonthField(t).value.value, pad) + "-"
  {
    var f := MonthField(t).value;
    if t[0] == '0' || f.value >= 10 {
      assert t[..f.width] == TwoDigits(f.value, ZeroPadded) + "-";
    } else {
      assert t[..f.width] == TwoDigits(f.value, Unpadded) + "-";
    }
  }

  lemma DayFieldIsFormat(t: string)
    requires DayField(t).Some?
    ensures exists pad :: t[..DayField(t).value.width] == TwoDigits(DayField(t).value.value, pad)
  {
    var f := DayField(t).value;
    if t[0] == ' ' {
      assert t[..f.width] == TwoDigits(f.value, SpacePadded);
    } else if t[0] == '0' || f.value >= 10 {
      assert t[..f.width] == TwoDigits(f.value, ZeroPadded);
    } else {
      assert t[..f.width] == TwoDigits(f.value, Unpadded);
    }
  }

  lemma Quotient10(x: int, q: int, r: int)
    requires 0 <= r < 10 && x == 10 * q + r
    ensures x / 10 == q && x % 10 == r
  {
  }

  lemma Quotient100(x: int, q: int, r: int)
    requires 0 <= r < 100 && x == 100 * q + r
    ensures x / 100 == q
  {
  }

  lemma Quotient1000(x: int, q: int, r: int)
    requires 0 <= r < 1000 && x == 1000 * q + r
    ensures x / 1000 == q
  {
  }

  lemma YearIsFourDigits(y: string)
    requires |y| == 4 && IsDigit(y[0]) && IsDigit(y[1]) && IsDigit(y[2]) && IsDigit(y[3])
    ensures y == FourDigits(1000 * DigitValue(y[0]) + 100 * DigitValue(y[1]) + 10 * DigitValue(y[2]) + DigitValue(y[3]))
  {
    var a, b, c, e := DigitValue(y[0]), DigitValue(y[1]), DigitValue(y[2]), DigitValue(y[3]);
    var n := 1000 * a + 100 * b + 10 * c + e;
    Quotient1000(n, a, 100 * b + 10 * c + e);
    Quotient100(n, 10 * a + b, 10 * c + e);
    Quotient10(10 * a + b, a, b);
    Quotient10(n, 100 * a + 10 * b + c, e);
    Quotient10(100 * a + 10 * b + c, 10 * a + b, c);
    assert DigitChar(a) == y[0] && DigitChar(b) == y[1] && DigitChar(c) == y[2] && DigitChar(e) == y[3];
  }

  /** Conversely, every string that parses is a valid date written in one of those ways:
      there is no other spelling `strptime` accepts. */
  lemma ParseIsFormat(s: string)
    requires ParseDate(s).Some?
    ensures exists monthPad, dayPad :: monthPad != SpacePadded && s == Format(ParseDate(s).value, monthPad, dayPad)
  {
    var d := ParseDate(s).value;
    var m := MonthField(s[5..]).value;
    var t := s[5 + m.width..];
    var f := DayField(t).value;
    assert d.month == m.value && d.day == f.value;
    YearIsFourDigits(s[..4]);
    MonthFieldIsFormat(s[5..]);
    var mp :| mp != SpacePadded && s[5..][..m.width] == TwoDigits(d.month, mp) + "-";
    DayFieldIsFormat(t);
    var dp :| t[..f.width] == TwoDigits(d.day, dp);
    assert t[..f.width] == t;
    assert s == s[..4] + "-" + s[5..][..m.width] + t;
    assert s == Format(d, mp, dp);
  }

  /** Worked cases that Python accepts: leap years, single-digit and space-padded fields. */
  lemma AcceptedExamples()
    ensures ParseDate("2025-07-25") == Some(Date(2025, 7, 25))
    ensures ParseDate("2025-07-23") == Some(Date(2025, 7, 23))
    ensures ParseDate("2024-02-29") == Some(Date(2024, 2, 29))
    ensures ParseDate("2025-7-5") == Some(Date(2025, 7, 5))
    ensures ParseDate("2025-07- 5") == Some(Date(2025, 7, 5))
  {
  }

  /** Worked cases that Python rejects on the calendar: days the month lacks, in a common
      year, a century year and a short month, and year 0. */
  lemma RejectedDateExamples()
    ensures ParseDate("2023-02-29") == None
    ensures ParseDate("2025-02-30") == None
    ensures ParseDate("1900-02-29") == None
    ensures ParseDate("0000-01-01") == None
  {
  }

  /** Worked cases that Python rejects on their form: a month or day out of range,
      trailing characters and free text. */
  lemma RejectedShapeExamples()
    ensures ParseDate("2025-13-01") == None
    ensures ParseDate("2025-07-32") == None
    ensures ParseDate("2025-07-05 ") == None
    ensures ParseDate("not-a-date") == None
  {
  }
}
