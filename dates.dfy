/**
 * The part of JavaScript's `Date` the calendar and the stage filters use, over the
 * proleptic Gregorian calendar: day numbers (the time value of a date at midnight UTC,
 * in days), month lengths, weekdays, the month normalisation of `new Date(y, m, 1)`, and
 * `new Date(text)` on the `YYYY-MM-DD` text of a date input.
 */
module Dates {
  import opened Types
  import opened Text

  predicate IsLeapYear(y: int)
  {
    y % 4 == 0 && (y % 100 != 0 || y % 400 == 0)
  }

  function DaysInYear(y: int): int
  {
    if IsLeapYear(y) then 366 else 365
  }

  /** The number of days of month `m` of year `y` (`getDaysInMonth`). */
  function DaysInMonth(y: int, m: Month): (n: int)
    ensures 28 <= n <= 31
    ensures m == 1 ==> (n == 29 <==> IsLeapYear(y))
    ensures m != 1 ==> n == 30 || n == 31
  {
    if m == 1 then (if IsLeapYear(y) then 29 else 28)
    else if m == 3 || m == 5 || m == 8 || m == 10 then 30
    else 31
  }

  predicate IsValidDate(d: Date)
  {
    1 <= d.day <= DaysInMonth(d.year, d.month)
  }

  /** Days from 1 January 1970 to 1 January of year `y`. */
  function DaysBeforeYear(y: int): int
  {
    var p := y - 1;
    365 * p + p / 4 - p / 100 + p / 400 - 719162
  }

  /** Days from 1 January to the first day of month `m`, cumulated from a table. */
  function DaysBeforeMonth(y: int, m: Month): int
  {
    var table := [0, 31, 59, 90, 120, 151, 181, 212, 243, 273, 304, 334];
    table[m] + (if m >= 2 && IsLeapYear(y) then 1 else 0)
  }

  /** The time value of `d` at midnight UTC divided by 86 400 000: days since 1 January 1970. */
  function DayNumber(d: Date): int
  {
    DaysBeforeYear(d.year) + DaysBeforeMonth(d.year, d.month) + d.day - 1
  }

  /** `getDay`: 0 is Sunday, as in the calendar's `weekDays` header. */
  function Weekday(d: Date): (w: int)
    ensures 0 <= w < 7
  {
    (DayNumber(d) + 4) % 7
  }

  /** `getFirstDayOfMonth`: the weekday of the first day of the month. */
  function FirstDayOfMonth(y: int, m: Month): (w: int)
    ensures 0 <= w < 7
  {
    Weekday(Date(y, m, 1))
  }

  /** Months counted from January of year 0, so that consecutive months differ by one. */
  function MonthCount(d: Date): int
  {
    d.year * 12 + d.month
  }

  /**
   * `new Date(year, month, 1)`: a month index outside 0..11 carries into the year,
   * so month 12 is January of the next year and month -1 December of the previous one.
   */
  function FirstOfMonth(year: int, month: int): (r: Date)
    ensures r.day == 1 && MonthCount(r) == year * 12 + month
    ensures 0 <= month < 12 ==> r == Date(year, month, 1)
  {
    var t := year * 12 + month;
    Date(t / 12, t % 12, 1)
  }

  /** 1 January 1970, day zero of the time value, was a Thursday. */
  lemma EpochIsThursday()
    ensures DayNumber(Date(1970, 0, 1)) == 0 && Weekday(Date(1970, 0, 1)) == 4
  {
    DivUnique(1969, 4, 492, 1);
    DivUnique(1969, 100, 19, 69);
    DivUnique(1969, 400, 4, 369);
  }

  /** 1 January 2000 was a Saturday and 29 February 2024 a Thursday. */
  lemma KnownWeekdays()
    ensures Weekday(Date(2000, 0, 1)) == 6 && Weekday(Date(2024, 1, 29)) == 4
  {
    DivUnique(1999, 4, 499, 3);
    DivUnique(1999, 100, 19, 99);
    DivUnique(1999, 400, 4, 399);
    DivUnique(2023, 4, 505, 3);
    DivUnique(2023, 100, 20, 23);
    DivUnique(2023, 400, 5, 23);
  }

  /** Quotient and remainder by one of the divisors the calendar uses are unique. */
  lemma DivUnique(n: int, k: int, q: int, r: int)
    requires k == 4 || k == 10 || k == 12 || k == 100 || k == 400 || k == 1000
    requires 0 <= r < k && n == k * q + r
    ensures n / k == q && n % k == r
  {
    if k == 4 {
      assert n == 4 * q + r;
    } else if k == 10 {
      assert n == 10 * q + r;
    } else if k == 12 {
      assert n == 12 * q + r;
    } else if k == 100 {
      assert n == 100 * q + r;
    } else if k == 400 {
      assert n == 400 * q + r;
    } else {
      assert n == 1000 * q + r;
    }
  }

  lemma FloorStep(y: int, k: int)
    requires k == 4 || k == 100 || k == 400
    ensures y / k - (y - 1) / k == if y % k == 0 then 1 else 0
  {
    var q, r := (y - 1) / k, (y - 1) % k;
    assert y - 1 == k * q + r && 0 <= r < k;
    if r == k - 1 {
      assert y == k * (q + 1);
    } else {
      assert y == k * q + (r + 1) && 0 < r + 1 < k;
    }
  }

  /** Consecutive first days of the year are a year's length apart. */
  lemma YearLength(y: int)
    ensures DaysBeforeYear(y + 1) - DaysBeforeYear(y) == DaysInYear(y)
  {
    FloorStep(y, 4);
    FloorStep(y, 100);
    FloorStep(y, 400);
    if y % 400 == 0 {
      DivUnique(y, 100, 4 * (y / 400), 0);
      DivUnique(y, 4, 100 * (y / 400), 0);
    } else if y % 100 == 0 {
      DivUnique(y, 4, 25 * (y / 100), 0);
    }
  }

  /**
   * `new Date(y, m + 1, 0)` is the day before the first of the next month, and its
   * `getDate()` is `DaysInMonth(y, m)`: the last day of month `m` lies one day before it.
   */
  lemma LastDayPrecedesNextMonth(y: int, m: Month)
    ensures DayNumber(Date(y, m, DaysInMonth(y, m))) + 1 == DayNumber(FirstOfMonth(y, m + 1))
  {
    if m == 11 {
      YearLength(y);
      DivUnique(y * 12 + 12, 12, y + 1, 0);
      assert FirstOfMonth(y, m + 1) == Date(y + 1, 0, 1);
    } else {
      assert FirstOfMonth(y, m + 1) == Date(y, m + 1, 1);
    }
  }

  /** The grid of the next month starts on the weekday after this month's last day. */
  lemma NextMonthWeekday(y: int, m: Month)
    ensures FirstDayOfMonth(FirstOfMonth(y, m + 1).year, FirstOfMonth(y, m + 1).month)
            == (FirstDayOfMonth(y, m) + DaysInMonth(y, m)) % 7
  {
    LastDayPrecedesNextMonth(y, m);
    var next := FirstOfMonth(y, m + 1);
    assert DayNumber(next) == DayNumber(Date(y, m, 1)) + DaysInMonth(y, m);
    ModAdd(DayNumber(Date(y, m, 1)) + 4, DaysInMonth(y, m));
  }

  lemma ModAdd(a: int, k: int)
    ensures (a + k) % 7 == (a % 7 + k) % 7
  {
    var q := a / 7;
    assert a == 7 * q + a % 7;
    assert a + k == 7 * q + (a % 7 + k);
  }

  /** Calendar order: earlier year, else earlier month, else earlier day. */
  predicate Before(a: Date, b: Date)
  {
    a.year < b.year || (a.year == b.year && (a.month < b.month || (a.month == b.month && a.day < b.day)))
  }

  lemma {:induction false} YearsApart(y1: int, y2: int)
    requires y1 < y2
    ensures DaysBeforeYear(y1) + DaysInYear(y1) <= DaysBeforeYear(y2)
    decreases y2 - y1
  {
    YearLength(y1);
    if y1 + 1 < y2 {
      YearsApart(y1 + 1, y2);
    }
  }

  lemma MonthsApart(y: int, m1: Month, m2: Month)
    requires m1 < m2
    ensures DaysBeforeMonth(y, m1) + DaysInMonth(y, m1) <= DaysBeforeMonth(y, m2)
  {
  }

  lemma WithinYear(d: Date)
    requires IsValidDate(d)
    ensures 0 <= DaysBeforeMonth(d.year, d.month) + d.day - 1 < DaysInYear(d.year)
  {
  }

  /** Comparing day numbers, as the code compares `Date` objects, is calendar order. */
  lemma DayNumberOrder(a: Date, b: Date)
    requires IsValidDate(a) && IsValidDate(b)
    ensures DayNumber(a) < DayNumber(b) <==> Before(a, b)
    ensures DayNumber(a) == DayNumber(b) <==> a == b
  {
    WithinYear(a);
    WithinYear(b);
    if a.year < b.year {
      YearsApart(a.year, b.year);
    } else if b.year < a.year {
      YearsApart(b.year, a.year);
    } else if a.month < b.month {
      MonthsApart(a.year, a.month, b.month);
    } else if b.month < a.month {
      MonthsApart(a.year, b.month, a.month);
    }
  }

  /** Four decimal digits of `n`, with leading zeros. */
  function Pad4(n: int): string
    requires 0 <= n < 10000
  {
    [DigitChar(n / 1000), DigitChar(n / 100 % 10), DigitChar(n / 10 % 10), DigitChar(n % 10)]
  }

  function Pad2(n: int): string
    requires 0 <= n < 100
  {
    [DigitChar(n / 10), DigitChar(n % 10)]
  }

  /** The `YYYY-MM-DD` text a date input holds for `d` (month written 1-based). */
  function FormatIsoDate(d: Date): string
    requires 0 <= d.year < 10000 && 1 <= d.day <= 31
  {
    Pad4(d.year) + "-" + Pad2(d.month + 1) + "-" + Pad2(d.day)
  }

  /**
   * `new Date(text)` for a date input's text: a valid `YYYY-MM-DD` date gives that date;
   * anything else gives an invalid date, modelled as `None`.
   */
  function ParseIsoDate(s: string): Option<Date>
  {
    if |s| == 10 && s[4] == '-' && s[7] == '-' && IsDigits(s[..4]) && IsDigits(s[5..7]) && IsDigits(s[8..]) then
      var y, m, d := DigitsValue(s[..4]), DigitsValue(s[5..7]), DigitsValue(s[8..]);
      if 1 <= m <= 12 && 1 <= d <= DaysInMonth(y, m - 1) then Some(Date(y, m - 1, d)) else None
    else None
  }

  function DigitAt(s: string, i: int): int
    requires 0 <= i < |s|
  {
    s[i] as int - '0' as int
  }

  /** The value of four digits, place by place. */
  lemma FourDigits(s: string)
    requires |s| == 4 && IsDigits(s)
    ensures DigitsValue(s) == 1000 * DigitAt(s, 0) + 100 * DigitAt(s, 1) + 10 * DigitAt(s, 2) + DigitAt(s, 3)
  {
    var s3, s2, s1 := s[..3], s[..2], s[..1];
    assert s3[..2] == s2 && s2[..1] == s1;
    assert IsDigits(s3) && IsDigits(s2) && IsDigits(s1);
    assert DigitsValue(s1) == DigitAt(s, 0);
    assert DigitsValue(s2) == 10 * DigitAt(s, 0) + DigitAt(s, 1);
    assert DigitsValue(s3) == 10 * DigitsValue(s2) + DigitAt(s, 2);
  }

  lemma TwoDigits(s: string)
    requires |s| == 2 && IsDigits(s)
    ensures DigitsValue(s) == 10 * DigitAt(s, 0) + DigitAt(s, 1)
  {
    assert s[..1] == [s[0]];
  }

  lemma Pad4Value(n: int)
    requires 0 <= n < 10000
    ensures IsDigits(Pad4(n)) && DigitsValue(Pad4(n)) == n
  {
    var s := Pad4(n);
    var q1 := n / 10;
    var q2 := q1 / 10;
    var q3 := q2 / 10;
    DivUnique(n, 100, q2, 10 * (q1 % 10) + n % 10);
    DivUnique(n, 1000, q3, 100 * (q2 % 10) + 10 * (q1 % 10) + n % 10);
    assert DigitAt(s, 0) == q3 && DigitAt(s, 1) == q2 % 10 && DigitAt(s, 2) == q1 % 10 && DigitAt(s, 3) == n % 10;
    FourDigits(s);
  }

  lemma Pad2Value(n: int)
    requires 0 <= n < 100
    ensures IsDigits(Pad2(n)) && DigitsValue(Pad2(n)) == n
  {
    TwoDigits(Pad2(n));
  }

  /** Parsing the text of a date gives the date back. */
  lemma ParseFormat(d: Date)
    requires IsValidDate(d) && 0 <= d.year < 10000
    ensures ParseIsoDate(FormatIsoDate(d)) == Some(d)
  {
    var s := FormatIsoDate(d);
    Pad4Value(d.year);
    Pad2Value(d.month + 1);
    Pad2Value(d.day);
    assert s[..4] == Pad4(d.year) && s[5..7] == Pad2(d.month + 1) && s[8..] == Pad2(d.day);
  }

  lemma Pad4OfDigits(s: string)
    requires |s| == 4 && IsDigits(s)
    ensures DigitsValue(s) < 10000 && Pad4(DigitsValue(s)) == s
  {
    FourDigits(s);
    var n := DigitsValue(s);
    var a, b, c, d := DigitAt(s, 0), DigitAt(s, 1), DigitAt(s, 2), DigitAt(s, 3);
    DivUnique(n, 1000, a, 100 * b + 10 * c + d);
    DivUnique(n, 100, 10 * a + b, 10 * c + d);
    DivUnique(10 * a + b, 10, a, b);
    DivUnique(n, 10, 100 * a + 10 * b + c, d);
    DivUnique(100 * a + 10 * b + c, 10, 10 * a + b, c);
  }

  lemma Pad2OfDigits(s: string)
    requires |s| == 2 && IsDigits(s)
    ensures DigitsValue(s) < 100 && Pad2(DigitsValue(s)) == s
  {
    TwoDigits(s);
  }

  /** Only the text of a date parses to it: a parsed date formats back to the same text. */
  lemma FormatParse(s: string, d: Date)
    requires ParseIsoDate(s) == Some(d)
    ensures 0 <= d.year < 10000 && IsValidDate(d) && FormatIsoDate(d) == s
  {
    Pad4OfDigits(s[..4]);
    Pad2OfDigits(s[5..7]);
    Pad2OfDigits(s[8..]);
    assert s == s[..4] + "-" + s[5..7] + "-" + s[8..];
  }
}
