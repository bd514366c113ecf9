/** The conversions of libphoenix/time/time.c with `time_t` as the headers declare it: unsigned, with
    64 bits. A date before 1970 is then a very large number. */
module TimeDeclared {
  import opened Calendar
  import opened Time

  const WRAP: int := 0x1_0000_0000_0000_0000

  /** `time_t`. */
  type TimeT = t: nat | t < 0x1_0000_0000_0000_0000

  /** A number converted to `time_t`. */
  function Wrapped(x: int): TimeT { x % WRAP }

  /** `struct tm` holds `int` fields. */
  predicate IntFields(tm: Tm) {
    IsInt(tm.sec) && IsInt(tm.min) && IsInt(tm.hour) && IsInt(tm.mday) && IsInt(tm.mon) && IsInt(tm.year)
  }

  /** `gmtime_r`: done for the days whose arithmetic fits an `int`; the guard lets three more days and
      one second through. */
  method GmtimeR(t: TimeT) returns (out: Outcome)
    ensures out.TooLarge? <==> t > INT_MAX * DAY
    ensures out.Done? <==> t / DAY <= INT_MAX - 4
    ensures out.Undefined? <==> (INT_MAX - 3) * DAY <= t <= INT_MAX * DAY
    ensures out.Done? ==> Canonical(out.tm) && Instant(out.tm) == t && out.tm.year >= 70
  {
    GuardLetsThrough(t);
    out := Gmtime(t);
    if out.Done? {
      DayIs(t, DayOf(out.tm), out.tm.hour * 3600 + out.tm.min * 60 + out.tm.sec);
      SinceEpoch(out.tm);
    }
  }

  lemma SinceEpoch(tm: Tm)
    requires Canonical(tm) && DayOf(tm) >= 0
    ensures tm.year >= 70
  {
    SameDay(tm);
    DayInYear(Date(tm.year + 1900, tm.mon, tm.mday));
    if tm.year < 70 { YearsApart(tm.year + 1900, 1970); }
  }

  /** Sums and products may be brought into range at any time. */
  lemma WrapsAlong(a: int, b: int, k: int)
    ensures Wrapped(Wrapped(a) * k + Wrapped(b)) == Wrapped(a * k + b)
    ensures Wrapped(Wrapped(a) + b) == Wrapped(a + b)
  {
    var p, q := a / WRAP, b / WRAP;
    assert a == WRAP * p + Wrapped(a) && b == WRAP * q + Wrapped(b);
    Multiple(Wrapped(a) * k + Wrapped(b), p * k + q);
    assert a * k + b == Wrapped(a) * k + Wrapped(b) + WRAP * (p * k + q);
    Multiple(Wrapped(a) + b, p);
  }

  lemma Multiple(x: int, n: int)
    ensures Wrapped(x + WRAP * n) == Wrapped(x)
  {
    var q := x / WRAP;
    assert x + WRAP * n == WRAP * (q + n) + Wrapped(x);
  }

  /** `_mktimeSkel`: the second that the fields name, brought into the range of the type. */
  method MktimeSkelT(tm: Tm) returns (fits: bool, t: TimeT)
    ensures fits <==> FieldsFit(tm)
    ensures fits ==> t == Wrapped(Instant(tm))
  {
    var year := tm.year - 70;
    if !IsInt(year) { return false, 0; }
    var ys, month := FloorDivide(tm.mon, 12);
    FloorIs(tm.mon, ys, month);
    year := year + ys;
    if !IsInt(year) || !IsInt(year + 1970) { return false, 0; }
    var counted, leaps := Leapcount(year + 1970);
    if !counted { return false, 0; }
    var clock := tm.hour * 60 + tm.min;
    if !IsInt(tm.mday - 1) || !IsInt(tm.hour * 60) || !IsInt(clock) || !IsInt(clock * 60) { return false, 0; }
    fits := true;
    var months := MonthsAdded(0, month, IsLeap(year + 1970));
    assert year * 365 + leaps + months + (tm.mday - 1) == DayOf(tm);
    var days := DaysT(year, leaps, months, tm.mday - 1);
    t := SecondsT(days, clock * 60, tm.sec, DayOf(tm));
  }

  /** The sum of days in the type. */
  method DaysT(year: int, leaps: int, months: int, mday: int) returns (days: TimeT)
    ensures days == Wrapped(year * 365 + leaps + months + mday)
  {
    days := Wrapped(Wrapped(year) * 365 + Wrapped(leaps));
    WrapsAlong(year, leaps, 365);
    days := Wrapped(days + months);
    WrapsAlong(year * 365 + leaps, months, 1);
    days := Wrapped(days + Wrapped(mday));
    WrapsAlong(year * 365 + leaps + months, mday, 1);
  }

  /** The sum of seconds in the type. */
  method SecondsT(days: TimeT, clock: int, sec: int, ghost day: int) returns (t: TimeT)
    requires days == Wrapped(day)
    ensures t == Wrapped(day * 86400 + clock + sec)
  {
    t := Wrapped(days * 86400 + Wrapped(clock));
    WrapsAlong(day, clock, 86400);
    t := Wrapped(t + Wrapped(sec));
    WrapsAlong(day * 86400 + clock, sec, 1);
  }

  /** Fields of an `int` each name a second far from the ends of the type. */
  lemma InstantBound(tm: Tm)
    requires IntFields(tm) && FieldsFit(tm)
    ensures -0x1000_0000_0000_0000 < Instant(tm) < 0x1000_0000_0000_0000
  {
    var y := YearOf(tm);
    YearStartIs(y);
    assert -0x4000_0000 - 1 <= LeapDays(y) <= 0x4000_0000;
    MonthStartIs(IsLeap(y));
    MonthsApart(MonthOf(tm), 12, IsLeap(y));
    assert -0x200_0000_0000 < DayOf(tm) < 0x200_0000_0000;
  }

  /** `timegm` with the declared type. A second from 1970 on whose day fits is returned, the fields
      brought into their ranges for it; a second before 1970, or one the guard rejects, gives -1 and
      leaves the fields; fields in range stay as they are. */
  method TimegmT(tm: Tm) returns (defined: bool, r: TimeT, after: Tm)
    requires IntFields(tm)
    ensures defined <==>
      FieldsFit(tm) && (Instant(tm) < 0 || Instant(tm) / DAY <= INT_MAX - 4 || Instant(tm) > INT_MAX * DAY)
    ensures defined && 0 <= Instant(tm) <= INT_MAX * DAY ==>
      r == Instant(tm) && Canonical(after) && Instant(after) == Instant(tm) && (Canonical(tm) ==> after == tm)
    ensures defined && !(0 <= Instant(tm) <= INT_MAX * DAY) ==> r == WRAP - 1 && after == tm
  {
    r, after := 0, tm;
    defined, r := MktimeSkelT(tm);
    if !defined { return; }
    InstantBound(tm);
    WrappedIs(Instant(tm));
    var out := GmtimeR(r);
    match out {
      case Done(done) =>
        after := done;
        if Canonical(tm) { CanonicalUnique(tm, after); }
      case TooLarge => r := Wrapped(-1);
      case Undefined => defined := false;
    }
  }

  lemma WrappedIs(x: int)
    requires -0x1000_0000_0000_0000 < x < 0x1000_0000_0000_0000
    ensures Wrapped(x) == if x < 0 then x + WRAP else x
  {
    if x < 0 { Multiple(x, 1); }
  }

  /** Taking a second apart and putting it together again gives it back. */
  method RoundTripT(t: TimeT) returns (fits: bool, r: TimeT)
    requires t / DAY <= INT_MAX - 4
    ensures fits && r == t
  {
    var out := GmtimeR(t);
    CanonicalFits(out.tm, t);
    fits, r := MktimeSkelT(out.tm);
  }
}
