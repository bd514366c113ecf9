/** The calendar that libphoenix/time/time.c converts from and to: days counted one year and one
    month at a time from 1970-01-01, in both directions. */
module Calendar {
  predicate IsLeap(year: int) {
    year % 400 == 0 || (year % 4 == 0 && year % 100 != 0)
  }

  function YearLength(year: int): int { if IsLeap(year) then 366 else 365 }

  function MonthLength(month: nat, leap: bool): (n: nat)
    requires month < 12
    ensures 28 <= n <= 31
  {
    if month == 1 then (if leap then 29 else 28)
    else if month in {3, 5, 8, 10} then 30 else 31
  }

  /** The day on which a year begins. */
  function YearStart(year: int): int
    decreases if year >= 1970 then year - 1970 else 1970 - year
  {
    if year == 1970 then 0
    else if year > 1970 then YearStart(year - 1) + YearLength(year - 1)
    else YearStart(year + 1) - YearLength(year)
  }

  /** The day of the year on which a month begins. */
  function MonthStart(month: nat, leap: bool): nat
    requires month <= 12
  {
    if month == 0 then 0 else MonthStart(month - 1, leap) + MonthLength(month - 1, leap)
  }

  lemma MonthStartIs(leap: bool)
    ensures var x := if leap then 1 else 0;
      && MonthStart(1, leap) == 31 && MonthStart(2, leap) == 59 + x && MonthStart(3, leap) == 90 + x
      && MonthStart(4, leap) == 120 + x && MonthStart(5, leap) == 151 + x && MonthStart(6, leap) == 181 + x
      && MonthStart(7, leap) == 212 + x && MonthStart(8, leap) == 243 + x && MonthStart(9, leap) == 273 + x
      && MonthStart(10, leap) == 304 + x && MonthStart(11, leap) == 334 + x && MonthStart(12, leap) == 365 + x
  {
    assert MonthStart(1, leap) == 31;
    assert MonthStart(2, leap) == MonthStart(1, leap) + MonthLength(1, leap);
    assert MonthStart(3, leap) == MonthStart(2, leap) + MonthLength(2, leap);
    assert MonthStart(4, leap) == MonthStart(3, leap) + MonthLength(3, leap);
    assert MonthStart(5, leap) == MonthStart(4, leap) + MonthLength(4, leap);
    assert MonthStart(6, leap) == MonthStart(5, leap) + MonthLength(5, leap);
    assert MonthStart(7, leap) == MonthStart(6, leap) + MonthLength(6, leap);
    assert MonthStart(8, leap) == MonthStart(7, leap) + MonthLength(7, leap);
    assert MonthStart(9, leap) == MonthStart(8, leap) + MonthLength(8, leap);
    assert MonthStart(10, leap) == MonthStart(9, leap) + MonthLength(9, leap);
    assert MonthStart(11, leap) == MonthStart(10, leap) + MonthLength(10, leap);
    assert MonthStart(12, leap) == MonthStart(11, leap) + MonthLength(11, leap);
  }

  /** A date of the calendar, months from 0 and days from 1. */
  datatype Date = Date(year: int, month: int, day: int)

  predicate IsDate(d: Date) {
    0 <= d.month < 12 && 1 <= d.day <= MonthLength(d.month, IsLeap(d.year))
  }

  /** The number of a day, 1970-01-01 being 0. */
  function DayNumber(d: Date): int
    requires IsDate(d)
  {
    YearStart(d.year) + MonthStart(d.month, IsLeap(d.year)) + d.day - 1
  }

  // ----- order and uniqueness -----

  lemma {:induction false} YearsApart(a: int, b: int)
    requires a < b
    ensures YearStart(a) + YearLength(a) <= YearStart(b)
    decreases b - a
  {
    YearStep(b - 1);
    if a < b - 1 { YearsApart(a, b - 1); }
  }

  lemma YearStep(year: int)
    ensures YearStart(year + 1) == YearStart(year) + YearLength(year)
  {
  }

  lemma {:induction false} MonthsApart(a: nat, b: nat, leap: bool)
    requires a < b <= 12
    ensures MonthStart(a, leap) + MonthLength(a, leap) <= MonthStart(b, leap)
    decreases b - a
  {
    if a < b - 1 { MonthsApart(a, b - 1, leap); }
  }

  lemma DayInYear(d: Date)
    requires IsDate(d)
    ensures YearStart(d.year) <= DayNumber(d) < YearStart(d.year) + YearLength(d.year)
  {
    MonthsApart(d.month, 12, IsLeap(d.year));
    MonthStartIs(IsLeap(d.year));
  }

  /** A day has one date. */
  lemma DateUnique(a: Date, b: Date)
    requires IsDate(a) && IsDate(b) && DayNumber(a) == DayNumber(b)
    ensures a == b
  {
    DayInYear(a);
    DayInYear(b);
    if a.year < b.year { YearsApart(a.year, b.year); }
    if b.year < a.year { YearsApart(b.year, a.year); }
    var leap := IsLeap(a.year);
    if a.month < b.month { MonthsApart(a.month, b.month, leap); }
    if b.month < a.month { MonthsApart(b.month, a.month, leap); }
  }

  // ----- leap days -----

  /** The leap days from 1970-01-01 to the beginning of a year, in closed form. */
  function LeapDays(year: int): int {
    var y := year - 2001;
    8 + y / 400 - y / 100 + y / 4
  }

  lemma {:induction false} YearStartIs(year: int)
    ensures YearStart(year) == 365 * (year - 1970) + LeapDays(year)
    decreases if year >= 1970 then year - 1970 else 1970 - year
  {
    if year > 1970 {
      YearStartIs(year - 1);
      LeapStep(year - 1);
    } else if year < 1970 {
      YearStartIs(year + 1);
      LeapStep(year);
    }
  }

  lemma LeapStep(year: int)
    ensures LeapDays(year + 1) == LeapDays(year) + if IsLeap(year) then 1 else 0
  {
    var y := year - 2001;
    assert LeapDays(year + 1) == 8 + (y + 1) / 400 - (y + 1) / 100 + (y + 1) / 4;
    QuotientStep(y, 400, year);
    QuotientStep(y, 100, year);
    QuotientStep(y, 4, year);
    MultiplesNest(year);
  }

  lemma QuotientStep(y: int, n: int, year: int)
    requires n in {4, 100, 400} && year == y + 2001
    ensures (y + 1) / n == y / n + if year % n == 0 then 1 else 0
  {
    var q := (y + 1) / n;
    var r := (y + 1) % n;
    if n == 4 {
      assert year == 4 * (q + 500) + r;
    } else if n == 100 {
      assert year == 100 * (q + 20) + r;
    } else {
      assert year == 400 * (q + 5) + r;
    }
  }

  lemma MultiplesNest(year: int)
    ensures year % 400 == 0 ==> year % 100 == 0
    ensures year % 100 == 0 ==> year % 4 == 0
  {
  }
}
