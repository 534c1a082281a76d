/** The proleptic Gregorian calendar as the ECMAScript `Date` object computes it
    (ECMA-262, section 21.4.1 "Time Values and Time Range"): day numbers counted
    from 1970-01-01, DaysInYear/InLeapYear, the cumulative month table behind
    MonthFromTime/DateFromTime, WeekDay, MakeDay and the day-overflow rule that
    `new Date(y, m, d)` applies when `d` is outside the month.
    Day numbers play the role of ECMAScript's Day(t); all arithmetic is on
    unbounded integers, and `/` and `%` with a positive divisor are floor
    division and the non-negative modulo that the standard writes as
    floor(x / y) and "x modulo y". */
module Gregorian {

  /** A civil date: year, month 1..12, day of month. */
  datatype CivilDate = CivilDate(year: int, month: int, day: int)

  /** InLeapYear of ECMA-262: divisible by 4, except centuries not divisible by 400. */
  predicate IsLeapYear(y: int) {
    y % 4 == 0 && (y % 100 != 0 || y % 400 == 0)
  }

  /** DaysInYear of ECMA-262, written as the standard's four cases. */
  function DaysInYear(y: int): (n: int)
    ensures n == 366 <==> IsLeapYear(y)
    ensures n == 365 <==> !IsLeapYear(y)
  {
    if y % 4 != 0 then 365
    else if y % 100 != 0 then 366
    else if y % 400 != 0 then 365
    else 366
  }

  /** Number of days of year `y` before the first day of month `m`; month 13
      stands for the start of the next year. This is the threshold table that
      MonthFromTime and DateFromTime use. */
  function DaysBeforeMonth(y: int, m: int): (n: int)
    requires 1 <= m <= 13
    ensures 0 <= n <= DaysInYear(y)
    ensures m == 13 <==> n == DaysInYear(y)
  {
    var leap := if IsLeapYear(y) then 1 else 0;
    if m == 1 then 0
    else if m == 2 then 31
    else if m == 3 then 59 + leap
    else if m == 4 then 90 + leap
    else if m == 5 then 120 + leap
    else if m == 6 then 151 + leap
    else if m == 7 then 181 + leap
    else if m == 8 then 212 + leap
    else if m == 9 then 243 + leap
    else if m == 10 then 273 + leap
    else if m == 11 then 304 + leap
    else if m == 12 then 334 + leap
    else 365 + leap
  }

  /** Length of month `m` of year `y`: the gap between two consecutive thresholds. */
  function DaysInMonth(y: int, m: int): (n: int)
    requires 1 <= m <= 12
    ensures 28 <= n <= 31
  {
    DaysBeforeMonth(y, m + 1) - DaysBeforeMonth(y, m)
  }

  /** Month lengths depend on the year only through whether it is a leap year. */
  lemma SameLeapSameMonths(y1: int, y2: int, m: int)
    requires 1 <= m <= 12 && (IsLeapYear(y1) <==> IsLeapYear(y2))
    ensures DaysInMonth(y1, m) == DaysInMonth(y2, m)
  {
  }

  predicate ValidDate(c: CivilDate) {
    1 <= c.month <= 12 && 1 <= c.day <= DaysInMonth(c.year, c.month)
  }

  /** DayFromYear of ECMA-262: the day number of January 1 of year `y`. */
  function DayFromYear(y: int): int {
    365 * (y - 1970) + (y - 1969) / 4 - (y - 1901) / 100 + (y - 1601) / 400
  }

  /** Day number of the first day of month `m` of year `y`. */
  function MonthStart(y: int, m: int): int
    requires 1 <= m <= 12
  {
    DayFromYear(y) + DaysBeforeMonth(y, m)
  }

  /** The day number of a date written with a 1-based month and a day that may
      lie outside the month. */
  function DayNumber(c: CivilDate): int
    requires 1 <= c.month <= 12
  {
    MonthStart(c.year, c.month) + c.day - 1
  }

  /** MakeDay of ECMA-262 for a 0-based month `m0` that may lie outside 0..11:
      the month first overflows into the year, then the day is counted from
      the first of that month. */
  function MakeDay(y: int, m0: int, d: int): int {
    MonthStart(y + m0 / 12, m0 % 12 + 1) + d - 1
  }

  /** Twelve months more in the month index are one year more in the year. */
  lemma {:induction false} MakeDayYearShift(y: int, m0: int, d: int, k: int)
    ensures MakeDay(y, m0 + 12 * k, d) == MakeDay(y + k, m0, d)
  {
    assert (m0 + 12 * k) / 12 == m0 / 12 + k && (m0 + 12 * k) % 12 == m0 % 12;
  }

  /** WeekDay of ECMA-262: 0 is Sunday; day 0 (1970-01-01) was a Thursday. */
  function WeekDay(t: int): (w: int)
    ensures 0 <= w < 7
  {
    (t + 4) % 7
  }

  /** The day of the week of a civil date, 0 = Sunday ... 6 = Saturday. */
  function DayOfWeek(c: CivilDate): (w: int)
    requires 1 <= c.month <= 12
    ensures 0 <= w < 7
  {
    WeekDay(DayNumber(c))
  }

  /** MakeFullYear as the `Date(year, month, ...)` constructor applies it to an
      integral year: years 0 to 99 denote 1900 to 1999. The full year keeps
      the last two digits and is never itself a two-digit year. */
  function MakeFullYear(y: int): (r: int)
    ensures !(0 <= r <= 99)
    ensures r % 100 == y % 100
  {
    if 0 <= y <= 99 then 1900 + y else y
  }

  /** Only year 0 changes leap-ness when read as a full year (year 0 is a
      leap year, 1900 is not). */
  lemma FullYearLeap(y: int)
    requires y != 0
    ensures IsLeapYear(MakeFullYear(y)) <==> IsLeapYear(y)
  {
    if 0 <= y <= 99 {
      assert (1900 + y) % 4 == y % 4 && y % 100 != 0;
    }
  }

  // ---------------------------------------------------------------------
  // Year and month arithmetic

  /** From one January 1 to the next there are DaysInYear days. */
  lemma DayFromYearStep(y: int)
    ensures DayFromYear(y + 1) == DayFromYear(y) + DaysInYear(y)
  {
    FloorStep(y - 1969, y - 1901, y - 1601);
    ShiftedDivisibility(y);
    var d4 := if y % 4 == 0 then 1 else 0;
    var d100 := if y % 100 == 0 then 1 else 0;
    var d400 := if y % 400 == 0 then 1 else 0;
    assert DayFromYear(y + 1) == DayFromYear(y) + 365 + d4 - d100 + d400;
    assert DaysInYear(y) == 365 + d4 - d100 + d400 by {
      if y % 4 != 0 {
        assert y % 100 != 0 && y % 400 != 0 by { Multiples(y); }
      } else if y % 100 == 0 && y % 400 != 0 {
      } else if y % 400 == 0 {
        assert y % 100 == 0 by { Multiples(y); }
      }
    }
  }

  /** A multiple of 400 is a multiple of 100, and a multiple of 100 a multiple of 4. */
  lemma Multiples(y: int)
    ensures y % 400 == 0 ==> y % 100 == 0
    ensures y % 100 == 0 ==> y % 4 == 0
  {
    if y % 400 == 0 { Multiple400(y); }
    if y % 100 == 0 { Multiple100(y); }
  }

  lemma Multiple400(y: int)
    requires y % 400 == 0
    ensures y % 100 == 0
  {
    var q := y / 400;
    assert y == 400 * q;
    assert y == 100 * (4 * q) + 0;
  }

  lemma Multiple100(y: int)
    requires y % 100 == 0
    ensures y % 4 == 0
  {
    var q := y / 100;
    assert y == 100 * q;
    assert y == 4 * (25 * q) + 0;
  }

  /** Each of the three floor terms of DayFromYear grows by one exactly when
      the next value is a multiple of its divisor. */
  lemma FloorStep(a: int, b: int, c: int)
    ensures (a + 1) / 4 == a / 4 + (if (a + 1) % 4 == 0 then 1 else 0)
    ensures (b + 1) / 100 == b / 100 + (if (b + 1) % 100 == 0 then 1 else 0)
    ensures (c + 1) / 400 == c / 400 + (if (c + 1) % 400 == 0 then 1 else 0)
  {
  }

  lemma ShiftedDivisibility(y: int)
    ensures (y - 1968) % 4 == 0 <==> y % 4 == 0
    ensures (y - 1900) % 100 == 0 <==> y % 100 == 0
    ensures (y - 1600) % 400 == 0 <==> y % 400 == 0
  {
    var q4, q100, q400 := y / 4, y / 100, y / 400;
    assert y - 1968 == 4 * (q4 - 492) + y % 4;
    assert y - 1900 == 100 * (q100 - 19) + y % 100;
    assert y - 1600 == 400 * (q400 - 4) + y % 400;
  }

  /** Day numbers of January 1 increase with the year, by at least 365 a year. */
  lemma {:induction false} DayFromYearMonotone(y1: int, y2: int)
    requires y1 <= y2
    ensures DayFromYear(y1) + 365 * (y2 - y1) <= DayFromYear(y2)
    decreases y2 - y1
  {
    if y1 < y2 {
      DayFromYearMonotone(y1, y2 - 1);
      DayFromYearStep(y2 - 1);
    }
  }

  /** The month after `m` of year `y`, with December rolling over into January. */
  function NextMonth(y: int, m: int): (c: CivilDate)
    requires 1 <= m <= 12
    ensures 1 <= c.month <= 12 && c.day == 1
    ensures MonthStart(c.year, c.month) == MonthStart(y, m) + DaysInMonth(y, m)
  {
    if m == 12 then
      DayFromYearStep(y);
      CivilDate(y + 1, 1, 1)
    else
      CivilDate(y, m + 1, 1)
  }

  /** The month before `m` of year `y`, with January rolling back into December. */
  function PrevMonth(y: int, m: int): (c: CivilDate)
    requires 1 <= m <= 12
    ensures 1 <= c.month <= 12 && c.day == 1
    ensures MonthStart(c.year, c.month) + DaysInMonth(c.year, c.month) == MonthStart(y, m)
  {
    if m == 1 then
      DayFromYearStep(y - 1);
      CivilDate(y - 1, 12, 1)
    else
      CivilDate(y, m - 1, 1)
  }

  // ---------------------------------------------------------------------
  // Day overflow: `new Date(y, m0, d)` for any day `d`

  /** A day of month `m` that is 0 or negative counts back into earlier months. */
  function Borrow(y: int, m: int, d: int): (c: CivilDate)
    requires 1 <= m <= 12 && d < 1
    ensures ValidDate(c)
    ensures DayNumber(c) == MonthStart(y, m) + d - 1
    decreases -d
  {
    var p := PrevMonth(y, m);
    var pd := d + DaysInMonth(p.year, p.month);
    if pd >= 1 then CivilDate(p.year, p.month, pd)
    else Borrow(p.year, p.month, pd)
  }

  /** A day past the end of month `m` counts on into later months. */
  function Carry(y: int, m: int, d: int): (c: CivilDate)
    requires 1 <= m <= 12 && 1 <= d
    ensures ValidDate(c)
    ensures DayNumber(c) == MonthStart(y, m) + d - 1
    decreases d
  {
    var n := DaysInMonth(y, m);
    if d <= n then CivilDate(y, m, d)
    else
      var q := NextMonth(y, m);
      Carry(q.year, q.month, d - n)
  }

  /** The civil date that the Date constructor's MakeDay step denotes for
      year `y` (after MakeFullYear, so `new Date(y, m0, d)` itself only for a
      `y` outside 0..99), for a 0-based month and a day that may both lie
      outside their ranges. */
  function Normalize(y: int, m0: int, d: int): (c: CivilDate)
    ensures ValidDate(c)
    ensures DayNumber(c) == MakeDay(y, m0, d)
  {
    var ym, mn := y + m0 / 12, m0 % 12 + 1;
    if d < 1 then Borrow(ym, mn, d) else Carry(ym, mn, d)
  }

  // ---------------------------------------------------------------------
  // Day numbers identify valid dates

  /** A valid date lies inside its year: between its own January 1 and the next. */
  lemma DayNumberInYear(c: CivilDate)
    requires ValidDate(c)
    ensures DayFromYear(c.year) <= DayNumber(c) < DayFromYear(c.year + 1)
  {
    DayFromYearStep(c.year);
  }

  /** Within a year, a valid date of an earlier month has a smaller day number. */
  lemma MonthOrder(y: int, m1: int, m2: int)
    requires 1 <= m1 < m2 <= 12
    ensures DaysBeforeMonth(y, m1) + DaysInMonth(y, m1) <= DaysBeforeMonth(y, m2)
  {
  }

  /** Distinct valid dates have distinct day numbers, so the date that
      YearFromTime, MonthFromTime and DateFromTime decode from a day number is
      unique: every valid date with that day number is the same date. */
  lemma DayNumberInjective(a: CivilDate, b: CivilDate)
    requires ValidDate(a) && ValidDate(b)
    requires DayNumber(a) == DayNumber(b)
    ensures a == b
  {
    SameDayNumberSameYear(a, b);
    if a.month < b.month {
      MonthOrder(a.year, a.month, b.month);
    } else if b.month < a.month {
      MonthOrder(a.year, b.month, a.month);
    }
  }

  /** Valid dates with the same day number lie in the same year. */
  lemma SameDayNumberSameYear(a: CivilDate, b: CivilDate)
    requires ValidDate(a) && ValidDate(b)
    requires DayNumber(a) == DayNumber(b)
    ensures a.year == b.year
  {
    var n := DayNumber(a);
    assert DayFromYear(a.year) <= n < DayFromYear(a.year + 1) by { DayNumberInYear(a); }
    assert DayFromYear(b.year) <= n < DayFromYear(b.year + 1) by { DayNumberInYear(b); }
    YearOfDay(a.year, b.year, n);
  }

  /** A day number lies in one year only. */
  lemma YearOfDay(y1: int, y2: int, n: int)
    requires DayFromYear(y1) <= n < DayFromYear(y1 + 1)
    requires DayFromYear(y2) <= n < DayFromYear(y2 + 1)
    ensures y1 == y2
  {
    if y1 < y2 {
      DayFromYearMonotone(y1 + 1, y2);
    } else if y2 < y1 {
      DayFromYearMonotone(y2 + 1, y1);
    }
  }

  /** Normalize is exactly the ECMAScript decoding of MakeDay: any valid date
      whose day number is MakeDay(y, m0, d) is Normalize(y, m0, d). */
  lemma NormalizeIsDecoding(y: int, m0: int, d: int, c: CivilDate)
    requires ValidDate(c) && DayNumber(c) == MakeDay(y, m0, d)
    ensures Normalize(y, m0, d) == c
  {
    DayNumberInjective(Normalize(y, m0, d), c);
  }

  /** A day within the month is not moved by normalisation, and MakeDay then
      agrees with the day number of that date. */
  lemma {:induction false} NormalizeInRange(c: CivilDate)
    requires ValidDate(c)
    ensures Normalize(c.year, c.month - 1, c.day) == c
    ensures MakeDay(c.year, c.month - 1, c.day) == DayNumber(c)
  {
    assert (c.month - 1) / 12 == 0 && (c.month - 1) % 12 == c.month - 1;
    NormalizeIsDecoding(c.year, c.month - 1, c.day, c);
  }

  /** Day 0 of the month after 1-based month `m` is the last day of `m` in
      year `y`, the way `new Date(year, month, 0)` finds the length of `month`
      once MakeFullYear has turned `year` into `y`. */
  lemma LastDayOfMonth(y: int, m: int)
    requires 1 <= m <= 12
    ensures Normalize(y, m, 0) == CivilDate(y, m, DaysInMonth(y, m))
  {
    if m == 12 {
      assert 12 / 12 == 1 && 12 % 12 == 0;
      assert Normalize(y, m, 0) == Borrow(y + 1, 1, 0);
    } else {
      assert m / 12 == 0 && m % 12 == m;
      assert Normalize(y, m, 0) == Borrow(y, m + 1, 0);
    }
  }

  /** Day 0 of a month is the last day of the month before it. */
  lemma DayZeroIsLastDayOfPreviousMonth(y: int, m0: int)
    ensures Normalize(y, m0, 0)
         == CivilDate(y + (m0 - 1) / 12, (m0 - 1) % 12 + 1, DaysInMonth(y + (m0 - 1) / 12, (m0 - 1) % 12 + 1))
  {
    var ym, mn := y + m0 / 12, m0 % 12 + 1;
    var p := PrevMonth(ym, mn);
    assert Normalize(y, m0, 0) == CivilDate(p.year, p.month, DaysInMonth(p.year, p.month)) by {
      assert Normalize(y, m0, 0) == Borrow(ym, mn, 0);
    }
    assert p.year == y + (m0 - 1) / 12 && p.month == (m0 - 1) % 12 + 1 by {
      if mn == 1 {
        assert (m0 - 1) / 12 == m0 / 12 - 1 && (m0 - 1) % 12 == 11;
      } else {
        assert (m0 - 1) / 12 == m0 / 12 && (m0 - 1) % 12 == m0 % 12 - 1;
      }
    }
  }

  // ---------------------------------------------------------------------
  // Month lengths

  /** The familiar table: 31 days for January, March, May, July, August,
      October, December; 30 for April, June, September, November; February
      has 29 days exactly in leap years and 28 otherwise. */
  lemma DaysInMonthTable(y: int, m: int)
    requires 1 <= m <= 12
    ensures m in {1, 3, 5, 7, 8, 10, 12} ==> DaysInMonth(y, m) == 31
    ensures m in {4, 6, 9, 11} ==> DaysInMonth(y, m) == 30
    ensures m == 2 ==> (DaysInMonth(y, m) == 29 <==> IsLeapYear(y))
    ensures m == 2 ==> (DaysInMonth(y, m) == 28 <==> !IsLeapYear(y))
  {
  }
}
