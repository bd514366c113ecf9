/** Conversion between seconds and broken-down time (libphoenix/time/time.c), on signed seconds: what
    the algorithm does before and after 1970. `int` has 32 bits; where C leaves its range the result
    is undefined, and the model says so instead of giving one. */
module Time {
  import opened Calendar

  const INT_MAX: int := 0x7FFF_FFFF
  const INT_MIN: int := -0x8000_0000
  const DAY: int := 86400

  predicate IsInt(x: int) { INT_MIN <= x <= INT_MAX }

  /** Division of C: towards zero. */
  function CDiv(a: int, b: int): int
    requires b > 0
  {
    if a >= 0 then a / b else -((-a) / b)
  }

  function CMod(a: int, b: int): int
    requires b > 0
  {
    a - CDiv(a, b) * b
  }

  /** `struct tm`. */
  datatype Tm = Tm(sec: int, min: int, hour: int, mday: int, mon: int, year: int, wday: int, yday: int)

  datatype Outcome = Done(tm: Tm) | TooLarge | Undefined

  // ----- what the fields mean -----

  function YearOf(tm: Tm): int { tm.year + 1900 + tm.mon / 12 }

  function MonthOf(tm: Tm): nat { tm.mon % 12 }

  /** The day a `tm` names, its month and day of the month being any numbers. */
  function DayOf(tm: Tm): int {
    YearStart(YearOf(tm)) + MonthStart(MonthOf(tm), IsLeap(YearOf(tm))) + tm.mday - 1
  }

  /** The second a `tm` names, its fields being any numbers. */
  function Instant(tm: Tm): int {
    DayOf(tm) * DAY + tm.hour * 3600 + tm.min * 60 + tm.sec
  }

  /** Every field in its calendar range, the day of the week and of the year being those of the date. */
  predicate Canonical(tm: Tm) {
    && 0 <= tm.sec < 60 && 0 <= tm.min < 60 && 0 <= tm.hour < 24
    && IsDate(Date(tm.year + 1900, tm.mon, tm.mday))
    && tm.wday == (DayOf(tm) + 4) % 7
    && tm.yday == DayOf(tm) - YearStart(tm.year + 1900)
  }

  /** One broken-down time for each second. */
  lemma CanonicalUnique(a: Tm, b: Tm)
    requires Canonical(a) && Canonical(b) && Instant(a) == Instant(b)
    ensures a == b
  {
    ClockUnique(DayOf(a), a.hour, a.min, a.sec, DayOf(b), b.hour, b.min, b.sec);
    SameDay(a);
    SameDay(b);
    DateUnique(Date(a.year + 1900, a.mon, a.mday), Date(b.year + 1900, b.mon, b.mday));
  }

  /** Second 0 is the midnight at which January 1, 1970 began, a Thursday. */
  lemma Epoch(tm: Tm, first: Tm)
    requires Canonical(tm) && Instant(tm) == 0 && first == Tm(0, 0, 0, 1, 0, 70, 4, 0)
    ensures tm == first
  {
    assert YearStart(first.year + 1900) == 0;
    EpochDay(first);
    CanonicalUnique(tm, first);
  }

  lemma EpochDay(first: Tm)
    requires first.sec == first.min == first.hour == first.mon == first.yday == 0
    requires first.mday == 1 && first.wday == 4 && YearStart(first.year + 1900) == 0
    ensures Canonical(first) && Instant(first) == 0
  {
    FirstOfYear(first, first.year + 1900);
  }

  lemma FirstOfYear(tm: Tm, y: int)
    requires tm.mon == 0 && tm.mday == 1 && tm.year + 1900 == y
    ensures IsDate(Date(tm.year + 1900, tm.mon, tm.mday)) && DayOf(tm) == YearStart(y)
  {
    InRange(tm.mon);
  }

  /** A day later the clock shows the same, it is the next day of the week, and the next day of the
      year, or the first one of the next year. */
  lemma NextDay(a: Tm, b: Tm)
    requires Canonical(a) && Canonical(b) && Instant(b) == Instant(a) + DAY
    ensures b.hour == a.hour && b.min == a.min && b.sec == a.sec
    ensures b.wday == if a.wday == 6 then 0 else a.wday + 1
    ensures if b.year == a.year then b.yday == a.yday + 1
      else b.year == a.year + 1 && b.yday == 0 && a.yday == (if IsLeap(a.year + 1900) then 365 else 364)
  {
    ClockUnique(DayOf(a) + 1, a.hour, a.min, a.sec, DayOf(b), b.hour, b.min, b.sec);
    WeekStep(DayOf(a));
    YearOfNext(a, b);
  }

  lemma WeekStep(d: int)
    ensures (d + 1 + 4) % 7 == if (d + 4) % 7 == 6 then 0 else (d + 4) % 7 + 1
  {
  }

  lemma YearOfNext(a: Tm, b: Tm)
    requires Canonical(a) && Canonical(b) && DayOf(b) == DayOf(a) + 1
    ensures a.year <= b.year <= a.year + 1 && (b.year == a.year ==> b.yday == a.yday + 1)
    ensures b.year == a.year + 1 ==> b.yday == 0 && a.yday == YearLength(a.year + 1900) - 1
  {
    SameDay(a);
    SameDay(b);
    DayInYear(Date(a.year + 1900, a.mon, a.mday));
    DayInYear(Date(b.year + 1900, b.mon, b.mday));
    NextYear(DayOf(a), a.year + 1900, b.year + 1900);
  }

  /** A day of one year and the next day, of another. */
  lemma NextYear(d: int, y: int, z: int)
    requires YearStart(y) <= d < YearStart(y) + YearLength(y)
    requires YearStart(z) <= d + 1 < YearStart(z) + YearLength(z)
    ensures y <= z <= y + 1
    ensures z == y + 1 ==> d + 1 == YearStart(z) == YearStart(y) + YearLength(y)
  {
    if z < y { YearsApart(z, y); }
    if y < z { YearsApart(y, z); }
    if y + 1 < z { YearsApart(y + 1, z); }
    YearStep(y);
  }

  lemma SameDay(tm: Tm)
    requires Canonical(tm)
    ensures DayOf(tm) == DayNumber(Date(tm.year + 1900, tm.mon, tm.mday))
  {
    InRange(tm.mon);
    assert YearOf(tm) == tm.year + 1900 && MonthOf(tm) == tm.mon;
  }

  lemma InRange(month: int)
    requires 0 <= month < 12
    ensures month / 12 == 0 && month % 12 == month
  {
  }

  lemma ClockUnique(d: int, h: int, m: int, s: int, d': int, h': int, m': int, s': int)
    requires 0 <= h < 24 && 0 <= m < 60 && 0 <= s < 60
    requires 0 <= h' < 24 && 0 <= m' < 60 && 0 <= s' < 60
    requires d * DAY + h * 3600 + m * 60 + s == d' * DAY + h' * 3600 + m' * 60 + s'
    ensures d == d' && h == h' && m == m' && s == s'
  {
  }

  // ----- from days to a year -----

  datatype Period = Period(days: int, years: int, zeroDayLeap: int)

  const PERIODS: seq<Period> := [Period(146097, 400, 1), Period(36524, 100, 0), Period(1461, 4, 1), Period(365, 1, 0)]

  /** March 1 of a year that lies whole periods behind 2000. */
  lemma MarchFirst(a: int, b: int, c: int, d: int)
    requires 0 <= b < 4 && 0 <= c < 25 && 0 <= d < 4
    ensures var y := 2000 + 400 * a + 100 * b + 4 * c + d;
      && YearStart(y) + 59 + (if IsLeap(y) then 1 else 0) == 11017 + 146097 * a + 36524 * b + 1461 * c + 365 * d
      && (IsLeap(y) <==> d == 0 && (c == 0 ==> b == 0))
  {
    var y := 2000 + 400 * a + 100 * b + 4 * c + d;
    YearStep(y);
    YearStartIs(y + 1);
    var z := 400 * a + 100 * b + 4 * c + d;
    assert z / 400 == a && z % 400 == 100 * b + 4 * c + d;
    assert z / 100 == 4 * a + b && z % 100 == 4 * c + d;
    assert z / 4 == 100 * a + 25 * b + c && z % 4 == d;
    assert y % 400 == z % 400 && y % 100 == z % 100 && y % 4 == z % 4;
  }

  /** The whole periods of the first `i` kinds taken out of a day count, `days` being left. */
  ghost predicate Taken(epoch: int, i: nat, year: int, days: int, a: int, b: int, c: int, d: int) {
    && (i <= 3 ==> d == 0) && (i <= 2 ==> c == 0) && (i <= 1 ==> b == 0) && (i <= 0 ==> a == 0)
    && 0 <= b < 4 && 0 <= c < 25 && 0 <= d < 4
    && year == 2000 + 400 * a + 100 * b + 4 * c + d
    && epoch - 11016 == days + 146097 * a + 36524 * b + 1461 * c + 365 * d
    && (0 < i <= 4 ==> 0 < days < PERIODS[i - 1].days)
    && (i == 3 ==> 1461 * c + days < 36524)
  }

  ghost predicate TakenSome(epoch: int, i: nat, year: int, days: int) {
    exists a: int, b: int, c: int, d: int :: Taken(epoch, i, year, days, a, b, c, d)
  }

  lemma TakeMore(epoch: int, i: nat, year: int, days: int, n: int, rest: int)
    requires i < 4 && TakenSome(epoch, i, year, days)
    requires days == n * PERIODS[i].days + rest && 0 <= rest < PERIODS[i].days
    ensures rest > 0 ==> TakenSome(epoch, i + 1, year + n * PERIODS[i].years, rest)
    ensures rest == 0 ==> epoch == YearStart(year + n * PERIODS[i].years) + 58 + PERIODS[i].zeroDayLeap
  {
    var a, b, c, d :| Taken(epoch, i, year, days, a, b, c, d);
    if i == 0 {
      assert days == n * 146097 + rest;
      Take(epoch, year + n * 400, rest, i, n, b, c, d);
    } else if i == 1 {
      assert days == n * 36524 + rest;
      Take(epoch, year + n * 100, rest, i, a, n, c, d);
    } else if i == 2 {
      assert days == n * 1461 + rest;
      Take(epoch, year + n * 4, rest, i, a, b, n, d);
    } else {
      assert days == n * 365 + rest;
      Take(epoch, year + n * 1, rest, i, a, b, c, n);
    }
  }

  lemma Take(epoch: int, y: int, rest: int, i: nat, a: int, b: int, c: int, d: int)
    requires i < 4 && 0 <= rest < PERIODS[i].days
    requires i == 0 ==> b == 0 && c == 0 && d == 0
    requires i == 1 ==> c == 0 && d == 0 && 0 < 36524 * b + rest < 146097
    requires i == 2 ==> 0 <= b < 4 && d == 0 && 0 < 1461 * c + rest < 36524
    requires i == 3 ==> 0 <= b < 4 && 0 <= c < 25 && 0 < 365 * d + rest < 1461 && 1461 * c + 365 * d + rest < 36524
    requires y == 2000 + 400 * a + 100 * b + 4 * c + d
    requires epoch - 11016 == rest + 146097 * a + 36524 * b + 1461 * c + 365 * d
    ensures rest > 0 ==> TakenSome(epoch, i + 1, y, rest)
    ensures rest == 0 ==> epoch == YearStart(y) + 58 + PERIODS[i].zeroDayLeap
  {
    if rest == 0 { ZeroDay(i, a, b, c, d); }
    else { assert Taken(epoch, i + 1, y, rest, a, b, c, d); }
  }

  /** With every period taken, day 1 is March 1. */
  lemma AllTaken(epoch: int, year: int, days: int)
    requires TakenSome(epoch, 4, year, days)
    ensures 0 < days < 365
    ensures epoch == YearStart(year) + 58 + (if IsLeap(year) then 1 else 0) + days
  {
    var a, b, c, d :| Taken(epoch, 4, year, days, a, b, c, d);
    MarchFirst(a, b, c, d);
  }

  /** The quotient rounded down and its remainder, from those of C. */
  method FloorDivide(x: int, n: int) returns (q: int, r: int)
    requires n > 0
    ensures x == q * n + r && 0 <= r < n
  {
    q := CDiv(x, n);
    r := CMod(x, n);
    if r < 0 {
      r := r + n;
      q := q - 1;
    }
  }

  /** `epochDaysToYears`: the year of a day and the day of that year. */
  method EpochDaysToYears(epoch: int) returns (year: int, yearDay: int)
    ensures epoch == YearStart(year) + yearDay
    ensures 0 <= yearDay < YearLength(year)
  {
    var days := epoch - 11016;
    year := 2000;
    var leapDay := 0;
    var i := 0;
    assert Taken(epoch, 0, 2000, days, 0, 0, 0, 0);
    while i < |PERIODS|
      invariant 0 <= i <= 4 && TakenSome(epoch, i, year, days)
    {
      var fullPeriods, rest := FloorDivide(days, PERIODS[i].days);
      TakeMore(epoch, i, year, days, fullPeriods, rest);
      days := rest;
      year := year + fullPeriods * PERIODS[i].years;
      leapDay := PERIODS[i].zeroDayLeap;
      if days == 0 { break; }
      i := i + 1;
    }
    if days != 0 { AllTaken(epoch, year, days); }
    if days >= 307 {
      YearStep(year);
      year := year + 1;
      yearDay := days - 307;
    } else if days == 0 {
      yearDay := 58 + leapDay;
    } else {
      yearDay := days + if IsLeap(year) then 59 else 58;
    }
  }

  /** The day at which the division stops early: February 29, or the 28th where whole periods end
      a day before it. */
  lemma ZeroDay(i: nat, a: int, b: int, c: int, d: int)
    requires i < 4
    requires i == 0 ==> b == 0 && c == 0 && d == 0
    requires i == 1 ==> 0 < b <= 4 && c == 0 && d == 0
    requires i == 2 ==> 0 <= b < 4 && 0 < c < 25 && d == 0
    requires i == 3 ==> 0 <= b < 4 && 0 <= c < 25 && 0 < d <= 4 && (d == 4 ==> c < 24)
    ensures var y := 2000 + 400 * a + 100 * b + 4 * c + d;
      11016 + 146097 * a + 36524 * b + 1461 * c + 365 * d == YearStart(y) + 58 + PERIODS[i].zeroDayLeap
  {
    if b == 4 {
      MarchFirst(a + 1, 0, 0, 0);
    } else if d == 4 {
      MarchFirst(a, b, c + 1, 0);
    } else {
      MarchFirst(a, b, c, d);
    }
  }

  /** A day that fits an `int` lies in a year far from the ends of one. */
  lemma YearBound(year: int, day: int)
    requires YearStart(year) <= day < YearStart(year) + YearLength(year) && INT_MIN <= day <= INT_MAX
    ensures -6_000_000 < year < 6_000_000
  {
    if year >= 6_000_000 {
      YearStartIs(6_000_000);
      if year > 6_000_000 { YearsApart(6_000_000, year); }
    }
    if year <= -6_000_000 {
      YearStartIs(-5_999_999);
      YearsApart(year, -5_999_999);
    }
  }

  // ----- gmtime_r and _mktimeSkel -----

  /** The days `gmtime_r` computes without leaving the range of `int`. */
  predicate DayFits(day: int) { INT_MIN + 11016 <= day <= INT_MAX - 4 }

  /** The seconds up to the guard of `gmtime_r`, were time signed, whose days do not fit: the last three
      days and one second, and all before day INT_MIN + 11016. */
  lemma GuardLetsThrough(t: int)
    ensures t <= INT_MAX * DAY && !DayFits(t / DAY)
      <==> (INT_MAX - 3) * DAY <= t <= INT_MAX * DAY || t < (INT_MIN + 11016) * DAY
  {
    assert t == DAY * (t / DAY) + t % DAY;
  }

  /** The day of a second and the second of that day, unless an `int` does not hold the day. */
  method DayAndSecond(t: int) returns (fits: bool, days: int, seconds: int)
    ensures days == t / DAY && t == days * DAY + seconds && 0 <= seconds < DAY
    ensures fits <==> IsInt(t / DAY)
  {
    days := CDiv(t, DAY);
    fits := IsInt(days);
    seconds := t - days * DAY;
    if seconds < 0 {
      days := days - 1;
      fits := fits && IsInt(days);
      seconds := seconds + DAY;
    }
    DayIs(t, days, seconds);
  }

  lemma DayIs(t: int, d: int, s: int)
    requires t == d * DAY + s && 0 <= s < DAY
    ensures t / DAY == d
  {
  }

  /** `gmtime_r`. */
  method Gmtime(t: int) returns (out: Outcome)
    ensures out.TooLarge? <==> t > INT_MAX * DAY
    ensures out.Done? <==> DayFits(t / DAY)
    ensures out.Done? ==> Canonical(out.tm) && Instant(out.tm) == t
    ensures out.Done? && out.tm.mon == 1 && out.tm.mday == 29 ==> IsLeap(out.tm.year + 1900)
  {
    if t > INT_MAX * DAY { return TooLarge; }
    var fits, days, seconds := DayAndSecond(t);
    if !fits || !IsInt(days + 4) || !IsInt(days - 11016) { return Undefined; }
    var hour, min, sec := Clock(seconds);
    var wday := DayOfWeek(days);
    var year, yday := EpochDaysToYears(days);
    var mon, mday := MonthAndDay(yday, IsLeap(year));
    out := Done(Tm(sec, min, hour, mday, mon, year - 1900, wday, yday));
    Assembled(out.tm, year, days);
  }

  method Clock(seconds: int) returns (hour: int, min: int, sec: int)
    requires 0 <= seconds < DAY
    ensures seconds == hour * 3600 + min * 60 + sec
    ensures 0 <= hour < 24 && 0 <= min < 60 && 0 <= sec < 60
  {
    hour := seconds / 3600;
    var rest := seconds % 3600;
    min := rest / 60;
    sec := rest % 60;
  }

  method DayOfWeek(days: int) returns (wday: int)
    ensures wday == (days + 4) % 7
  {
    wday := CMod(days + 4, 7);
    assert days + 4 == 7 * CDiv(days + 4, 7) + wday;
    if wday < 0 { wday := wday + 7; }
  }

  lemma Assembled(tm: Tm, year: int, day: int)
    requires tm.year == year - 1900 && 0 <= tm.mon < 12
    requires YearStart(year) + tm.yday == day && MonthStart(tm.mon, IsLeap(year)) + tm.mday - 1 == tm.yday
    ensures DayOf(tm) == day
  {
    InRange(tm.mon);
    assert YearOf(tm) == year && MonthOf(tm) == tm.mon;
  }

  /** The month and the day of a month that a day of a year is. */
  method MonthAndDay(yday: int, leap: bool) returns (month: nat, mday: int)
    requires 0 <= yday < if leap then 366 else 365
    ensures month < 12 && 1 <= mday <= MonthLength(month, leap)
    ensures MonthStart(month, leap) + mday - 1 == yday
  {
    MonthStartIs(leap);
    var days := yday;
    month := 0;
    while month < 12
      invariant month <= 12 && 0 <= days && MonthStart(month, leap) + days == yday
    {
      var length := MonthLength(month, leap);
      if days >= length { days := days - length; } else { break; }
      month := month + 1;
    }
    mday := days + 1;
  }

  /** `leapcount`: the leap days from 1970 to the beginning of a year, unless an `int` on the way
      to them does not hold. */
  method Leapcount(year: int) returns (fits: bool, leapDays: int)
    requires IsInt(year)
    ensures YearStart(year) == 365 * (year - 1970) + leapDays
    ensures fits <==> year >= INT_MIN + 2400
  {
    leapDays := 8;
    var y := year - 2001;
    fits := IsInt(y);
    ghost var shift := 0;
    if y < 0 {
      var periods := CDiv(y - 399, 400);
      fits := fits && IsInt(y - 399) && IsInt(periods * 400) && IsInt(periods * 97) && IsInt(y - periods * 400);
      shift := periods;
      y := y - periods * 400;
      leapDays := leapDays + periods * 97;
    }
    leapDays := leapDays + CDiv(y, 400);
    leapDays := leapDays - CDiv(y, 100);
    leapDays := leapDays + CDiv(y, 4);
    Shifted(year - 2001, y, shift);
    YearStartIs(year);
  }

  lemma Shifted(past: int, y: int, k: int)
    requires past == y + 400 * k
    ensures past / 400 - past / 100 + past / 4 == y / 400 - y / 100 + y / 4 + 97 * k
  {
    assert past / 400 == y / 400 + k;
    assert past / 100 == y / 100 + 4 * k;
    assert past / 4 == y / 4 + 100 * k;
  }

  datatype Seconds = At(t: int) | Beyond

  /** The fields `_mktimeSkel` computes with without leaving the range of `int`. */
  predicate FieldsFit(tm: Tm) {
    && IsInt(tm.year - 70)
    && INT_MIN + 430 <= YearOf(tm) - 1970 <= INT_MAX - 1970
    && IsInt(tm.mday - 1)
    && IsInt(tm.hour * 60) && IsInt(tm.hour * 60 + tm.min) && IsInt((tm.hour * 60 + tm.min) * 60)
  }

  /** `_mktimeSkel`: the second that fields of any size name. */
  method MktimeSkel(tm: Tm) returns (r: Seconds)
    ensures r.At? <==> FieldsFit(tm)
    ensures r.At? ==> r.t == Instant(tm)
  {
    var year := tm.year - 70;
    if !IsInt(year) { return Beyond; }
    year := year + CDiv(tm.mon, 12);
    var month := CMod(tm.mon, 12);
    var fits := IsInt(year);
    if month < 0 {
      year := year - 1;
      fits := fits && IsInt(year);
      month := month + 12;
    }
    FloorIs(tm.mon, year - (tm.year - 70), month);
    assert year == YearOf(tm) - 1970 && month == MonthOf(tm);
    if !fits || !IsInt(year + 1970) { return Beyond; }
    var counted, leaps := Leapcount(year + 1970);
    if !counted { return Beyond; }
    var days := year * 365 + leaps;
    days := MonthsAdded(days, month, IsLeap(year + 1970));
    var clock := tm.hour * 60 + tm.min;
    if !IsInt(tm.mday - 1) || !IsInt(tm.hour * 60) || !IsInt(clock) || !IsInt(clock * 60) { return Beyond; }
    days := days + (tm.mday - 1);
    r := At(days * 24 * 60 * 60 + clock * 60 + tm.sec);
  }

  method MonthsAdded(start: int, month: nat, leap: bool) returns (days: int)
    requires month < 12
    ensures days == start + MonthStart(month, leap)
  {
    days := start;
    for i := 0 to month
      invariant days == start + MonthStart(i, leap)
    {
      days := days + MonthLength(i, leap);
    }
  }

  lemma FloorIs(x: int, q: int, r: int)
    requires x == 12 * q + r && 0 <= r < 12
    ensures x / 12 == q && x % 12 == r
  {
  }

  // ----- the two together -----

  lemma CanonicalFits(tm: Tm, t: int)
    requires Canonical(tm) && Instant(tm) == t && DayFits(t / DAY)
    ensures FieldsFit(tm)
  {
    DayIs(t, DayOf(tm), tm.hour * 3600 + tm.min * 60 + tm.sec);
    SameDay(tm);
    DayInYear(Date(tm.year + 1900, tm.mon, tm.mday));
    YearBound(tm.year + 1900, DayOf(tm));
  }

  /** Taking a second apart and putting it together again gives it back. */
  method RoundTrip(t: int) returns (r: Seconds)
    requires DayFits(t / DAY)
    ensures r == At(t)
  {
    var out := Gmtime(t);
    CanonicalFits(out.tm, t);
    r := MktimeSkel(out.tm);
  }

  /** `timegm`: the second that any fields name, and the fields brought into their ranges. */
  method Timegm(tm: Tm) returns (r: Seconds, after: Tm)
    ensures r.At? <==> FieldsFit(tm) && (DayFits(Instant(tm) / DAY) || Instant(tm) > INT_MAX * DAY)
    ensures FieldsFit(tm) && DayFits(Instant(tm) / DAY) ==>
      r == At(Instant(tm)) && Canonical(after) && Instant(after) == Instant(tm)
    ensures FieldsFit(tm) && Instant(tm) > INT_MAX * DAY ==> r == At(-1) && after == tm
    ensures Canonical(tm) && DayFits(Instant(tm) / DAY) ==> after == tm
  {
    r := MktimeSkel(tm);
    after := tm;
    if r.At? {
      var out := Gmtime(r.t);
      match out {
        case Done(done) => after := done;
        case TooLarge => r := At(-1);
        case Undefined => r := Beyond;
      }
    }
    if Canonical(tm) && DayFits(Instant(tm) / DAY) {
      CanonicalFits(tm, Instant(tm));
      CanonicalUnique(tm, after);
    }
  }
}
