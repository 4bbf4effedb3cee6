/** The calendar behind time stamps: day counts since the end of 1977, the two loops that turn them
    into dates, and the four bytes they are stored in. Time zones are not modelled. */
module Calendar {
  import opened Arithmetic
  import opened Geometry

  /** Year, month 0 to 11 and day of the month, as in `struct tm`. */
  datatype Date = Date(year: nat, mon: nat, mday: nat)

  const FIRST_YEAR := 1978

  predicate Leap(year: nat) {
    year % 4 == 0 && (year % 100 != 0 || year % 400 == 0)
  }

  function YearLength(year: nat): nat {
    if Leap(year) then 366 else 365
  }

  function MonthLength(year: nat, mon: nat): nat
    requires mon < 12
  {
    if mon == 1 then (if Leap(year) then 29 else 28)
    else if mon == 3 || mon == 5 || mon == 8 || mon == 10 then 30
    else 31
  }

  predicate ValidDate(d: Date) {
    FIRST_YEAR <= d.year && d.mon < 12 && 1 <= d.mday <= MonthLength(d.year, d.mon)
  }

  function DaysBeforeYear(year: nat): nat {
    if year <= FIRST_YEAR then 0 else DaysBeforeYear(year - 1) + YearLength(year - 1)
  }

  function DaysBeforeMonth(year: nat, mon: nat): nat
    requires mon <= 12
  {
    if mon == 0 then 0 else DaysBeforeMonth(year, mon - 1) + MonthLength(year, mon - 1)
  }

  /** The count CP/M stores for a date: 1 is the first of January 1978. */
  function DayCount(d: Date): nat
    requires d.mon < 12
  {
    DaysBeforeYear(d.year) + DaysBeforeMonth(d.year, d.mon) + d.mday
  }

  // ----- the calendar itself ----------------------------------------------------------------------

  /** Leap days before a year, counted from year 1 of the Gregorian calendar. */
  function LeapDays(year: nat): int {
    (year - 1) / 4 - (year - 1) / 100 + (year - 1) / 400
  }

  lemma QuotientStep(n: nat, d: nat)
    requires 1 <= n && 0 < d
    ensures n / d == (n - 1) / d + if n % d == 0 then 1 else 0
  {
    DivModEquation(n, d);
    if n % d == 0 {
      assert (n / d - 1) * d == n / d * d - d;
      DivModUnique(n - 1, d, n / d - 1, d - 1);
    } else {
      DivModUnique(n - 1, d, n / d, n % d - 1);
    }
  }

  lemma LeapDaysStep(year: nat)
    requires 1 <= year
    ensures LeapDays(year + 1) == LeapDays(year) + YearLength(year) - 365
  {
    QuotientStep(year, 4);
    QuotientStep(year, 100);
    QuotientStep(year, 400);
  }

  /** The year-by-year sum is the closed Gregorian formula. */
  lemma {:induction false} DaysClosedForm(year: nat)
    requires FIRST_YEAR <= year
    ensures DaysBeforeYear(year) == 365 * (year - FIRST_YEAR) + LeapDays(year) - LeapDays(FIRST_YEAR)
  {
    hide LeapDays, YearLength;
    if year > FIRST_YEAR {
      DaysClosedForm(year - 1);
      LeapDaysStep(year - 1);
    }
  }

  /** The days in front of a month (counted from 0), in closed form. */
  lemma {:induction false} MonthsClosedForm(year: nat, mon: nat)
    requires mon <= 12
    ensures DaysBeforeMonth(year, mon) ==
      (367 * (mon + 1) - 362) / 12 - if mon < 2 then 0 else if Leap(year) then 1 else 2
  {
    hide Leap;
    if mon > 0 {
      MonthsClosedForm(year, mon - 1);
    }
  }

  lemma MonthsFillYear(year: nat)
    ensures DaysBeforeMonth(year, 12) == YearLength(year)
    ensures DaysBeforeMonth(year, 11) == YearLength(year) - 31
  {
    assert DaysBeforeMonth(year, 1) == 31;
    var february := MonthLength(year, 1);
    assert DaysBeforeMonth(year, 2) == 31 + february;
    assert DaysBeforeMonth(year, 4) == DaysBeforeMonth(year, 3) + 30 == 92 + february;
    assert DaysBeforeMonth(year, 6) == DaysBeforeMonth(year, 5) + 30 == 153 + february;
    assert DaysBeforeMonth(year, 8) == DaysBeforeMonth(year, 7) + 31 == 215 + february;
    assert DaysBeforeMonth(year, 10) == DaysBeforeMonth(year, 9) + 31 == 276 + february;
  }

  lemma {:induction false} MonthsAscend(year: nat, m: nat, n: nat)
    requires m < n <= 12
    ensures DaysBeforeMonth(year, m) + MonthLength(year, m) <= DaysBeforeMonth(year, n)
  {
    if m + 1 < n {
      MonthsAscend(year, m, n - 1);
    }
  }

  lemma {:induction false} YearsAscend(y: nat, z: nat)
    requires FIRST_YEAR <= y < z
    ensures DaysBeforeYear(y) + YearLength(y) <= DaysBeforeYear(z)
  {
    if y + 1 < z {
      YearsAscend(y, z - 1);
    }
  }

  lemma InsideYear(d: Date)
    requires ValidDate(d)
    ensures DaysBeforeYear(d.year) < DayCount(d) <= DaysBeforeYear(d.year) + YearLength(d.year)
  {
    hide MonthLength, Leap;
    MonthsFillYear(d.year);
    MonthsAscend(d.year, d.mon, 12);
  }

  /** A day count belongs to one date only. */
  lemma DayCountInjective(d: Date, e: Date)
    requires ValidDate(d) && ValidDate(e) && DayCount(d) == DayCount(e)
    ensures d == e
  {
    hide MonthLength, Leap, DaysBeforeMonth;
    InsideYear(d);
    InsideYear(e);
    if d.year < e.year {
      YearsAscend(d.year, e.year);
    } else if e.year < d.year {
      YearsAscend(e.year, d.year);
    } else if d.mon < e.mon {
      MonthsAscend(d.year, d.mon, e.mon);
    } else if e.mon < d.mon {
      MonthsAscend(d.year, e.mon, d.mon);
    }
  }

  // ----- the loops -----------------------------------------------------------------------------------

  /** `days_per_month`, and `md` of the file system editor. */
  method MonthTable(february: nat) returns (table: seq<nat>)
    ensures |table| == 12 && forall m :: 0 <= m < 12 ==>
      table[m] == if m == 1 then february else if m == 3 || m == 5 || m == 8 || m == 10 then 30 else 31
  {
    table := [31, february, 31, 30, 31, 30, 31, 31, 30, 31, 30, 31];
  }

  /** The loops of `cpm2unix_time`. The result is the first of a month, and the days to go from there,
      counted from 1. */
  method CpmToDate(count: nat) returns (d: Date)
    ensures 1 <= count ==> ValidDate(d) && DayCount(d) == count
    ensures count == 0 ==> d == Date(FIRST_YEAR, 0, 0)
  {
    hide MonthLength, Leap, DaysBeforeMonth;
    var days, year := count, FIRST_YEAR;
    var daysPerYear := YearLength(year);
    while days > daysPerYear
      invariant FIRST_YEAR <= year && daysPerYear == YearLength(year)
      invariant DaysBeforeYear(year) + days == count && (1 <= count ==> 1 <= days)
    {
      days := days - daysPerYear;
      year := year + 1;
      daysPerYear := YearLength(year);
    }
    var mon, mday := CountMonths(year, days);
    d := Date(year, mon, mday);
  }

  method CountMonths(year: nat, start: nat) returns (mon: nat, days: nat)
    requires start <= YearLength(year)
    ensures mon < 12 && DaysBeforeMonth(year, mon) + days == start && days <= MonthLength(year, mon)
    ensures (1 <= start ==> 1 <= days) && (start == 0 ==> mon == 0)
  {
    var table := MonthTable(if YearLength(year) == 366 then 29 else 28);
    MonthsFillYear(year);
    mon, days := 0, start;
    while days > table[mon]
      invariant mon < 12 && DaysBeforeMonth(year, mon) + days == start && (1 <= start ==> 1 <= days) &&
        (mon > 0 ==> 1 <= start)
      decreases days
    {
      assert mon != 11;
      days := days - table[mon];
      mon := mon + 1;
    }
  }

  /** `cpmtime` of the file system editor: counts from 0. */
  method EditorDate(count: nat) returns (d: Date)
    ensures ValidDate(d) && DayCount(d) == if count == 0 then 1 else count
  {
    hide MonthLength, Leap, DaysBeforeMonth;
    var days: nat, year := if count != 0 then count - 1 else count, FIRST_YEAR;
    while days >= YearLength(year)
      invariant FIRST_YEAR <= year && DaysBeforeYear(year) + days == if count == 0 then 0 else count - 1
      decreases days
    {
      days := days - YearLength(year);
      year := year + 1;
    }
    var mon, rest := CountMonthsFromZero(year, days);
    d := Date(year, mon, rest + 1);
  }

  method CountMonthsFromZero(year: nat, start: nat) returns (mon: nat, days: nat)
    requires start < YearLength(year)
    ensures mon < 12 && DaysBeforeMonth(year, mon) + days == start && days < MonthLength(year, mon)
  {
    var table := MonthTable(if Leap(year) then 29 else 28);
    MonthsFillYear(year);
    mon, days := 0, start;
    while days >= table[mon]
      invariant mon < 12 && DaysBeforeMonth(year, mon) + days == start
      decreases days
    {
      assert mon != 11;
      days := days - table[mon];
      mon := mon + 1;
    }
  }

  /** Both ways of reading a stamp agree, except on day 0. */
  method BothDates(count: nat) returns (d: Date, e: Date)
    ensures d == e <==> 1 <= count
  {
    hide DayCount, ValidDate;
    d := CpmToDate(count);
    e := EditorDate(count);
    if 1 <= count {
      DayCountInjective(d, e);
    } else {
      ZeroIsNoDate(d);
    }
  }

  lemma ZeroIsNoDate(d: Date)
    requires d.mday == 0
    ensures !ValidDate(d)
  {}

  /** `unix2cpm_time`: from the year and the day of the year (counted from 0) to a day count. */
  method DateToCpm(year: nat, yday: nat) returns (days: nat)
    ensures days == DaysBeforeYear(year) + yday + 1
  {
    days := 0;
    var i := FIRST_YEAR;
    while i < year
      invariant FIRST_YEAR <= i && (i <= year || i == FIRST_YEAR) && days == DaysBeforeYear(i)
    {
      days := days + 365;
      if i % 4 == 0 && (i % 100 != 0 || i % 400 == 0) {
        days := days + 1;
      }
      i := i + 1;
    }
    days := days + yday + 1;
  }

  /** There and back: the date of a day count has that day count, and the other way round. */
  method ThereAndBack(d: Date) returns (e: Date)
    requires ValidDate(d)
    ensures e == d
  {
    hide DayCount, MonthLength, Leap;
    assert DayCount(d) == DaysBeforeYear(d.year) + (DaysBeforeMonth(d.year, d.mon) + d.mday - 1) + 1 by { CountOf(d); }
    var yday := DaysBeforeMonth(d.year, d.mon) + d.mday - 1;
    var days := DateToCpm(d.year, yday);
    e := CpmToDate(days);
    DayCountInjective(d, e);
  }

  lemma CountOf(d: Date)
    requires ValidDate(d)
    ensures DayCount(d) == DaysBeforeYear(d.year) + (DaysBeforeMonth(d.year, d.mon) + d.mday - 1) + 1
    ensures 1 <= DayCount(d)
  {}

  // ----- the stored stamp --------------------------------------------------------------------------

  /** `((n / 10) << 4) | (n % 10)` */
  function ToBcd(n: nat): nat {
    n / 10 * 16 + n % 10
  }

  function FromBcd(b: byte): nat {
    b / 16 % 16 * 10 + b % 16
  }

  datatype Stamp = Stamp(days: nat, hour: nat, min: nat)

  /** `setCpmStampField`: two bytes of days, then hour and minute in BCD. */
  function StampBytes(t: Stamp): (r: seq<byte>)
    ensures |r| == 4
  {
    [t.days % 256, t.days / 256 % 256, ToBcd(t.hour) % 256, ToBcd(t.min) % 256]
  }

  /** `getCpmStampField`. */
  function ReadStamp(b: seq<byte>): Stamp
    requires |b| == 4
  {
    Stamp(b[0] as int + 256 * (b[1] as int), FromBcd(b[2]), FromBcd(b[3]))
  }

  /** The bytes of a stamp: the day count with its low byte first, then the decimal digits of hour and minute, one in
      each half of a byte. */
  lemma StampLayout(t: Stamp)
    requires t.days < 65536 && t.hour < 24 && t.min < 60
    ensures var b := StampBytes(t);
      && b[0] == t.days % 256 && b[1] == t.days / 256
      && b[2] / 16 == t.hour / 10 && b[2] % 16 == t.hour % 10
      && b[3] / 16 == t.min / 10 && b[3] % 16 == t.min % 10
  {}

  /** A stamp survives exactly while its day count fits two bytes, that is, into the year 2157. */
  lemma StampRoundTrip(t: Stamp)
    requires t.hour < 24 && t.min < 60
    ensures ReadStamp(StampBytes(t)) == t <==> t.days < 65536
  {
    hide ToBcd, FromBcd;
    BcdRoundTrip(t.hour);
    BcdRoundTrip(t.min);
    TwoBytes(t.days);
  }

  lemma TwoBytes(n: nat)
    ensures n % 256 + 256 * (n / 256 % 256) == n <==> n < 65536
  {}

  lemma BcdRoundTrip(n: nat)
    requires n < 100
    ensures ToBcd(n) < 256 && FromBcd(ToBcd(n) % 256) == n
  {}

  lemma LastStampDay()
    ensures DayCount(Date(2157, 5, 5)) == 65535
  {
    DaysClosedForm(2157);
    assert DaysBeforeMonth(2157, 2) == 59;
    assert DaysBeforeMonth(2157, 5) == 151;
  }
}
