/**
 * Epoch seconds to civil date (timeut.h, after redis), with C's truncating division, and
 * the rtclock adjustment of its result (rtclock.c).
 */
module CivilTime {
  import opened Division

  const DAY: int := 86400
  const INT_MAX: int := 0x7FFF_FFFF

  /** struct tm, with the year and month numbering left to the holder. */
  datatype Tm = Tm(sec: int, min: int, hour: int, mday: int, mon: int, year: int, wday: int, yday: int, isdst: int)

  /** C's a / b and a % b: truncated toward zero. */
  function CDiv(a: int, b: int): int
    requires b > 0
  {
    if a >= 0 then a / b else -(-a / b)
  }

  function CMod(a: int, b: int): int
    requires b > 0
  {
    if a >= 0 then a % b else -(-a % b)
  }

  /** YEAR_IS_LEAPYEAR */
  function Leap(year: int): int {
    if CMod(year, 4) != 0 then 0 else if CMod(year, 100) != 0 then 1 else if CMod(year, 400) != 0 then 0 else 1
  }

  const MEAN_MDAYS: seq<int> := [31, 28, 31, 30, 31, 30, 31, 31, 30, 31, 30, 31]
  const LEAP_MDAYS: seq<int> := [31, 29, 31, 30, 31, 30, 31, 31, 30, 31, 30, 31]

  function MonthDays(leap: int): (s: seq<int>)
    ensures |s| == 12
  {
    if leap != 0 then LEAP_MDAYS else MEAN_MDAYS
  }

  // ---------------------------------------------------------------- the reference: Gregorian day counts

  /** Days from 1 January 1970 to 1 January of the year, by the Gregorian rule. */
  function DaysToYear(year: int): int
    requires year >= 1
  {
    var y := year - 1;
    365 * (year - 1970) + y / 4 - y / 100 + y / 400 - 477
  }

  /** Days before the first of month mon (0 to 12) of a year. */
  function DaysToMonth(leap: int, mon: nat): int
    requires mon <= 12
  {
    if mon == 0 then 0 else DaysToMonth(leap, mon - 1) + MonthDays(leap)[mon - 1]
  }

  /** Where the months begin. */
  lemma MonthStarts(leap: int)
    requires leap == 0 || leap == 1
    ensures DaysToMonth(leap, 0) == 0 && DaysToMonth(leap, 1) == 31 && DaysToMonth(leap, 2) == 59 + leap
    ensures DaysToMonth(leap, 3) == 90 + leap && DaysToMonth(leap, 4) == 120 + leap && DaysToMonth(leap, 5) == 151 + leap
    ensures DaysToMonth(leap, 6) == 181 + leap && DaysToMonth(leap, 7) == 212 + leap && DaysToMonth(leap, 8) == 243 + leap
    ensures DaysToMonth(leap, 9) == 273 + leap && DaysToMonth(leap, 10) == 304 + leap && DaysToMonth(leap, 11) == 334 + leap
    ensures DaysToMonth(leap, 12) == 365 + leap
  {
    assert DaysToMonth(leap, 2) == 59 + leap;
    assert DaysToMonth(leap, 4) == 120 + leap;
    assert DaysToMonth(leap, 6) == 181 + leap;
    assert DaysToMonth(leap, 8) == 243 + leap;
    assert DaysToMonth(leap, 10) == 304 + leap;
  }

  /** The second a broken-down time names; mon counts from 0, year is the full year. */
  function Encode(tm: Tm): int
    requires 1 <= tm.year && 0 <= tm.mon < 12
  {
    (DaysToYear(tm.year) + DaysToMonth(Leap(tm.year), tm.mon) + tm.mday - 1) * DAY + tm.hour * 3600 + tm.min * 60 + tm.sec
  }

  /** Every field in its calendar range. */
  predicate InRange(tm: Tm) {
    && 0 <= tm.sec < 60 && 0 <= tm.min < 60 && 0 <= tm.hour < 24 && tm.year >= 1970
    && 0 <= tm.mon < 12 && 1 <= tm.mday <= MonthDays(Leap(tm.year))[tm.mon]
    && 0 <= tm.yday < 365 + Leap(tm.year) && 0 <= tm.wday < 7
  }

  /** Day of year and day of week belong to the date. */
  predicate Consistent(tm: Tm)
    requires 1 <= tm.year && 0 <= tm.mon < 12
  {
    && tm.yday == DaysToMonth(Leap(tm.year), tm.mon) + tm.mday - 1
    && tm.wday == CMod(DaysToYear(tm.year) + tm.yday + 4, 7)
  }

  /** tm is the calendar date of second t. */
  predicate IsDate(tm: Tm, t: int) {
    InRange(tm) && Consistent(tm) && Encode(tm) == t
  }

  lemma YearLength(year: int)
    requires year >= 1
    ensures DaysToYear(year + 1) == DaysToYear(year) + 365 + Leap(year)
  {
    Steps(year, 4);
    Steps(year, 100);
    Steps(year, 400);
    LeapIs(year);
  }

  function One(b: bool): int {
    if b then 1 else 0
  }

  lemma LeapIs(year: int)
    requires year >= 1
    ensures Leap(year) == One(year % 4 == 0) - One(year % 100 == 0) + One(year % 400 == 0)
  {
  }

  lemma Steps(year: int, n: int)
    requires year >= 1 && n > 1
    ensures year / n == (year - 1) / n + One(year % n == 0)
  {
    var q, r := year / n, year % n;
    assert year == q * n + r;
    if r == 0 {
      assert year - 1 == (q - 1) * n + (n - 1);
      DivUnique(year - 1, n, q - 1, n - 1);
    } else {
      DivUnique(year - 1, n, q, r - 1);
    }
  }

  lemma {:induction false} YearsGrow(a: int, b: int)
    requires 1 <= a <= b
    ensures DaysToYear(b) >= DaysToYear(a) + 365 * (b - a)
    decreases b - a
  {
    if a < b {
      YearsGrow(a, b - 1);
      YearLength(b - 1);
    }
  }

  lemma YearDays(leap: int)
    requires leap == 0 || leap == 1
    ensures DaysToMonth(leap, 12) == 365 + leap
  {
    MonthStarts(leap);
  }

  // ---------------------------------------------------------------- the conversion

  /** The time of day of the remaining seconds. */
  lemma TimeOfDay(t: int)
    ensures var days, s := CDiv(t, DAY), CMod(t, DAY);
            var h, m, c := CDiv(s, 3600), CDiv(CMod(s, 3600), 60), CMod(CMod(s, 3600), 60);
            && t == days * DAY + h * 3600 + m * 60 + c
            && (t >= 0 ==> days >= 0 && 0 <= h < 24 && 0 <= m < 60 && 0 <= c < 60)
            && (t < 0 ==> days < 0 || h < 0 || m < 0 || c < 0)
            && (t < 0 ==> days <= 0)
  {
    var a := if t >= 0 then t else -t;
    var s := a % DAY;
    assert a == (a / DAY) * DAY + s && s == (s / 3600) * 3600 + s % 3600;
    assert s % 3600 == ((s % 3600) / 60) * 60 + (s % 3600) % 60;
  }

  /** The year loop: which year the day falls in, and how far into it. */
  method FindYear(days0: int) returns (year: int, days: int)
    requires days0 < DaysToYear(INT_MAX + 1)
    ensures 1970 <= year <= INT_MAX && days0 == DaysToYear(year) + days
    ensures days0 >= 0 ==> 0 <= days < 365 + Leap(year)
    ensures days0 <= 0 ==> year == 1970
  {
    year, days := 1970, days0;
    assert DaysToYear(1970) == 0;
    while true
      invariant 1970 <= year <= INT_MAX && days0 == DaysToYear(year) + days
      invariant days0 >= 0 ==> days >= 0
      invariant days0 <= 0 ==> year == 1970
      decreases days
    {
      var days_this_year := 365 + Leap(year);
      if days_this_year > days {
        break;
      }
      YearLength(year);
      days := days - days_this_year;
      year := year + 1;
    }
  }

  /** The month loop over the table of the year; it never reaches past December. */
  method FindMonth(leap: int, yday: int) returns (mon: int, days: int)
    requires (leap == 0 || leap == 1) && yday < 365 + leap
    ensures 0 <= mon < 12 && yday == DaysToMonth(leap, mon) + days && days < MonthDays(leap)[mon]
    ensures yday >= 0 ==> days >= 0
    ensures yday <= 0 ==> mon == 0
  {
    var mdays := MonthDays(leap);
    mon, days := 0, yday;
    YearDays(leap);
    assert forall i :: 0 <= i < 12 ==> mdays[i] > 0;
    while days >= mdays[mon]
      invariant 0 <= mon < 12 && yday == DaysToMonth(leap, mon) + days
      invariant yday >= 0 ==> days >= 0
      invariant yday <= 0 ==> mon == 0
      decreases 12 - mon
    {
      days := days - mdays[mon];
      mon := mon + 1;
      assert yday == DaysToMonth(leap, mon) + days;
    }
  }

  /** (int)x for a 64-bit x */
  function IntOf(x: int): int {
    (x + 0x8000_0000) % 0x1_0000_0000 - 0x8000_0000
  }

  lemma IntOfExact(x: int)
    ensures IntOf(x) == x <==> -0x8000_0000 <= x <= INT_MAX
  {
  }

  /** The day number of second t fits an int, and so does the one before it. */
  lemma DaysFit(t: int)
    requires t < 0
    ensures -0x8000_0000 <= CDiv(t, DAY) <==> t > -0x8000_0001 * DAY
    ensures -0x8000_0000 <= CDiv(t, DAY) + 1 <==> t > -0x8000_0002 * DAY
  {
  }

  /** A midnight before 1970, on a day whose number comes out as one of January 1970 when cut to an int. */
  predicate WrapsIntoRange(t: int) {
    t < 0 && t % DAY == 0 && (t / DAY + 4) % 7 == 0 && 0 <= IntOf(t / DAY) < 31
  }

  /** The remainders that C takes of a negative second are negative or 0; all are 0 only at midnight, and on a Sunday. */
  lemma NegativeRemainders(t: int)
    requires t < 0
    ensures var days, s := CDiv(t, DAY), CMod(t, DAY);
            var h, m, c := CDiv(s, 3600), CDiv(CMod(s, 3600), 60), CMod(CMod(s, 3600), 60);
            && (h >= 0 && m >= 0 && c >= 0 <==> t % DAY == 0) && -24 < h <= 0 && -60 < m <= 0 && -60 < c <= 0
            && (t % DAY == 0 ==> days == t / DAY)
            && (days < -4 ==> (CMod(days + 4, 7) >= 0 <==> (days + 4) % 7 == 0)) && CMod(days + 4, 7) < 7
  {
    TimeOfDay(t);
    var days, s := CDiv(t, DAY), CMod(t, DAY);
    assert t == days * DAY + s && -DAY < s <= 0;
    if s == 0 {
      DivUnique(t, DAY, days, 0);
    } else {
      DivUnique(t, DAY, days - 1, DAY + s);
    }
  }

  /**
   * What the conversion makes of second t: re-encoding the fields gives it back, and day of
   * year and of week belong to the date, exactly down to the day whose number leaves an int;
   * the fields are in range exactly for seconds from 1970 on and those that wrap there;
   * before, they count backwards from 1 January 1970.
   */
  predicate Converted(t: int, tm: Tm) {
    && tm.year >= 1970 && 0 <= tm.mon < 12
    && (Encode(tm) == t <==> t > -0x8000_0002 * DAY)
    && (Encode(tm) == t && Consistent(tm) <==> t > -0x8000_0001 * DAY)
    && (InRange(tm) <==> t >= 0 || WrapsIntoRange(t))
    && (t < 0 ==> tm.year == 1970 && tm.mon == 0 && -24 < tm.hour <= 0 && -60 < tm.min <= 0 && -60 < tm.sec <= 0)
  }

  /** The fields for a second before 1970, in terms of the two day fields cut to an int. */
  lemma BeforeEpoch(t: int, tm: Tm)
    requires t < 0 && tm.year == 1970 && tm.mon == 0
    requires var days, s := CDiv(t, DAY), CMod(t, DAY);
             && tm.hour == CDiv(s, 3600) && tm.min == CDiv(CMod(s, 3600), 60) && tm.sec == CMod(CMod(s, 3600), 60)
             && tm.yday == IntOf(days) && tm.mday == IntOf(days + 1) && tm.wday == CMod(days + 4, 7)
    ensures Converted(t, tm)
  {
    var days := CDiv(t, DAY);
    TimeOfDay(t);
    DaysFit(t);
    IntOfExact(days);
    IntOfExact(days + 1);
    NegativeRemainders(t);
    assert DaysToYear(1970) == 0 && Leap(1970) == 0;
    assert Encode(tm) - t == (IntOf(days + 1) - (days + 1)) * DAY;
    assert -4 <= days <= 0 ==> IntOf(days) < 0 || days == 0;
  }

  lemma DayFitsYear(t: int)
    requires t < DaysToYear(INT_MAX + 1) * DAY
    ensures CDiv(t, DAY) < DaysToYear(INT_MAX + 1) && (t >= 0 ==> CDiv(t, DAY) >= 0) && (t < 0 ==> CDiv(t, DAY) <= 0)
  {
    TimeOfDay(t);
  }

  /** The fields for a second since then: the casts change nothing. */
  lemma SinceEpoch(t: int, tm: Tm, yday: int, rest: int)
    requires t >= 0 && tm.year >= 1970 && 0 <= tm.mon < 12
    requires var days, s := CDiv(t, DAY), CMod(t, DAY);
             && tm.hour == CDiv(s, 3600) && tm.min == CDiv(CMod(s, 3600), 60) && tm.sec == CMod(CMod(s, 3600), 60)
             && tm.yday == IntOf(yday) && tm.mday == IntOf(rest + 1) && tm.wday == CMod(days + 4, 7)
             && days == DaysToYear(tm.year) + yday && 0 <= yday < 365 + Leap(tm.year)
             && yday == DaysToMonth(Leap(tm.year), tm.mon) + rest && 0 <= rest < MonthDays(Leap(tm.year))[tm.mon]
    ensures Converted(t, tm)
  {
    TimeOfDay(t);
    IntOfExact(yday);
    IntOfExact(rest + 1);
  }

  /** A date in range for a negative second comes from at least 2^32 - 30 days before 1970. */
  lemma WrapsFarBack(t: int)
    requires WrapsIntoRange(t)
    ensures t <= -0xFFFF_FFE2 * DAY
  {
  }

  lemma NoDateBefore(t: int, tm: Tm)
    requires t < 0 && Converted(t, tm)
    ensures !IsDate(tm, t)
  {
    if WrapsIntoRange(t) {
      WrapsFarBack(t);
    }
  }

  /**
   * getlocaltime_safe, up to the year an int holds.  The fields are the calendar date of the
   * second less the zone plus the daylight hour exactly when it is not negative.
   */
  method GetLocalTime(t: int, tz: int, dst: int) returns (loc: Tm)
    requires t - tz + 3600 * dst < DaysToYear(INT_MAX + 1) * DAY
    ensures Converted(t - tz + 3600 * dst, loc.(year := loc.year + 1900))
    ensures Encode(loc.(year := loc.year + 1900)) + tz - 3600 * dst == t <==> t - tz + 3600 * dst > -0x8000_0002 * DAY
    ensures IsDate(loc.(year := loc.year + 1900), t - tz + 3600 * dst) <==> t - tz + 3600 * dst >= 0
    ensures loc.isdst == dst
  {
    var t' := t - tz;
    t' := t' + 3600 * dst;
    DayFitsYear(t');
    var days, seconds := CDiv(t', DAY), CMod(t', DAY);
    var hour, min, sec := CDiv(seconds, 3600), CDiv(CMod(seconds, 3600), 60), CMod(CMod(seconds, 3600), 60);
    var wday := CMod(days + 4, 7);
    var year, yday := FindYear(days);
    var mon, rest := FindMonth(Leap(year), yday);
    loc := Tm(sec, min, hour, IntOf(rest + 1), mon, year - 1900, wday, IntOf(yday), dst);
    if t' < 0 {
      BeforeEpoch(t', loc.(year := year));
      NoDateBefore(t', loc.(year := year));
    } else {
      SinceEpoch(t', loc.(year := year), yday, rest);
    }
    ShiftedBack(t, tz, dst, loc.(year := year));
  }

  lemma ShiftedBack(t: int, tz: int, dst: int, tm: Tm)
    requires Converted(t - tz + 3600 * dst, tm)
    ensures Encode(tm) + tz - 3600 * dst == t <==> t - tz + 3600 * dst > -0x8000_0002 * DAY
  {
  }

  /** There are such seconds: the midnight 2^32 days before 1970. */
  method FarPastLooksLikeEpoch() returns (loc: Tm)
    ensures var tm := loc.(year := loc.year + 1900); InRange(tm) && Encode(tm) != -0x1_0000_0000 * DAY
  {
    assert WrapsIntoRange(-0x1_0000_0000 * DAY);
    YearsGrow(1970, INT_MAX + 1);
    loc := GetLocalTime(-0x1_0000_0000 * DAY, 0, 0);
  }

  /** loc, with full year and months from 1, is the calendar date of second t. */
  predicate IsClock(loc: Tm, t: int) {
    IsDate(loc.(mon := loc.mon - 1), t)
  }

  /** rtclock_localtime: full year, months from 1; the calendar date exactly when that second is not negative. */
  method RtclockLocalTime(tv_sec: int, timezone: int, daylight: int) returns (loc: Tm)
    requires tv_sec - timezone + 3600 * daylight < DaysToYear(INT_MAX + 1) * DAY
    ensures IsClock(loc, tv_sec - timezone + 3600 * daylight) <==> tv_sec - timezone + 3600 * daylight >= 0
  {
    loc := GetLocalTime(tv_sec, timezone, daylight);
    loc := loc.(year := loc.year + 1900);
    loc := loc.(mon := loc.mon + 1);
    assert loc.(mon := loc.mon - 1).(year := loc.year) == loc.(mon := loc.mon - 1);
  }

  // ---------------------------------------------------------------- one date per second, in order

  /** Dates of one year, by month. */
  lemma {:induction false} MonthsGrow(leap: int, a: nat, b: nat)
    requires a <= b <= 12
    ensures DaysToMonth(leap, a) <= DaysToMonth(leap, b)
    decreases b - a
  {
    if a < b {
      MonthsGrow(leap, a, b - 1);
    }
  }

  function DayOf(tm: Tm): int
    requires InRange(tm)
  {
    DaysToYear(tm.year) + DaysToMonth(Leap(tm.year), tm.mon) + tm.mday - 1
  }

  /** Date order as the fields show it. */
  predicate DateBefore(a: Tm, b: Tm) {
    a.year < b.year || (a.year == b.year && (a.mon < b.mon || (a.mon == b.mon && a.mday < b.mday)))
  }

  lemma DayInMonth(tm: Tm)
    requires InRange(tm)
    ensures var l := Leap(tm.year);
            0 <= DaysToMonth(l, tm.mon) && DaysToMonth(l, tm.mon) + tm.mday - 1 < DaysToMonth(l, tm.mon + 1) <= 365 + l
  {
    var l := Leap(tm.year);
    YearDays(l);
    MonthsGrow(l, 0, tm.mon);
    MonthsGrow(l, tm.mon + 1, 12);
  }

  lemma DayInYear(tm: Tm)
    requires InRange(tm)
    ensures DaysToYear(tm.year) <= DayOf(tm) < DaysToYear(tm.year + 1)
  {
    DayInMonth(tm);
    YearLength(tm.year);
  }

  lemma MonthOrder(a: Tm, b: Tm)
    requires InRange(a) && InRange(b) && a.year == b.year && a.mon < b.mon
    ensures DayOf(a) < DayOf(b)
  {
    DayInMonth(a);
    MonthsGrow(Leap(a.year), a.mon + 1, b.mon);
  }

  lemma DateOrder(a: Tm, b: Tm)
    requires InRange(a) && InRange(b) && DateBefore(a, b)
    ensures DayOf(a) < DayOf(b)
  {
    if a.year < b.year {
      DayInYear(a);
      DayInYear(b);
      YearsGrow(a.year + 1, b.year);
    } else if a.mon < b.mon {
      MonthOrder(a, b);
    }
  }

  predicate TimeBefore(a: Tm, b: Tm) {
    a.hour < b.hour || (a.hour == b.hour && (a.min < b.min || (a.min == b.min && a.sec < b.sec)))
  }

  /** The later date or time of day names the later second. */
  lemma EncodeOrder(a: Tm, b: Tm)
    requires InRange(a) && InRange(b)
    requires DateBefore(a, b) || (!DateBefore(b, a) && TimeBefore(a, b))
    ensures Encode(a) < Encode(b)
  {
    if DateBefore(a, b) {
      DateOrder(a, b);
    } else {
      assert a.year == b.year && a.mon == b.mon && a.mday == b.mday;
    }
  }

  /** A second has one calendar date: the conversion undoes the encoding as well. */
  lemma DateIsUnique(a: Tm, b: Tm)
    requires InRange(a) && Consistent(a) && InRange(b) && Consistent(b) && Encode(a) == Encode(b) && a.isdst == b.isdst
    ensures a == b
  {
    if DateBefore(a, b) || (!DateBefore(b, a) && TimeBefore(a, b)) {
      EncodeOrder(a, b);
    } else if DateBefore(b, a) || TimeBefore(b, a) {
      EncodeOrder(b, a);
    }
  }

  /** The bound the conversion asks for is exactly that the year fits an int. */
  lemma YearFitsInt(tm: Tm)
    requires InRange(tm)
    ensures tm.year <= INT_MAX <==> Encode(tm) < DaysToYear(INT_MAX + 1) * DAY
  {
    DayInYear(tm);
    if tm.year <= INT_MAX {
      YearsGrow(tm.year + 1, INT_MAX + 1);
    } else {
      YearsGrow(INT_MAX + 1, tm.year);
    }
  }
}
