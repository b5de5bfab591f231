/**
 Day numbers and dates: the unsigned arithmetic of `j2date` against the proleptic Gregorian
 calendar, and the split of a microsecond timestamp into a day and a time of day.
 */
module Calendar {
  import opened Arithmetic

  datatype Date = Date(year: int, month: int, day: int)

  // ---------------------------------------------------------------- the calendar

  predicate IsLeap(y: int) {
    y % 4 == 0 && (y % 100 != 0 || y % 400 == 0)
  }

  function DaysInMonth(y: int, m: int): int {
    if m == 2 then (if IsLeap(y) then 29 else 28)
    else if m == 4 || m == 6 || m == 9 || m == 11 then 30
    else 31
  }

  predicate ValidDate(d: Date) {
    1 <= d.month <= 12 && 1 <= d.day <= DaysInMonth(d.year, d.month)
  }

  function NextDay(d: Date): Date {
    if d.day < DaysInMonth(d.year, d.month) then Date(d.year, d.month, d.day + 1)
    else if d.month < 12 then Date(d.year, d.month + 1, 1)
    else Date(d.year + 1, 1, 1)
  }

  /** The date k days after 1 March of astronomical year -4800, stepping one day at a time. */
  function CalendarDay(k: nat): Date {
    if k == 0 then Date(-4800, 3, 1) else NextDay(CalendarDay(k - 1))
  }

  // The Julian day number of 1 March -4800.
  const ORIGIN: int := -32044

  function YearStart(y: int): int {
    1721426 + 365 * (y - 1) + (y - 1) / 4 - (y - 1) / 100 + (y - 1) / 400
  }

  function DaysBeforeMonth(y: int, m: int): int {
    var leap := if IsLeap(y) then 1 else 0;
    if m <= 1 then 0
    else if m == 2 then 31
    else if m == 3 then 59 + leap
    else if m == 4 then 90 + leap
    else if m == 5 then 120 + leap
    else if m == 6 then 151 + leap
    else if m == 7 then 181 + leap
    else if m == 8 then 212 + leap
    else if m == 9 then 243 + leap
    else if m == 10 then 273 + leap
    else if m == 11 then 304 + leap
    else 334 + leap
  }

  /** The Julian day number of a date, in closed form. */
  function DayNumber(d: Date): int {
    YearStart(d.year) + DaysBeforeMonth(d.year, d.month) + d.day - 1
  }

  lemma YearLength(y: int)
    ensures YearStart(y + 1) == YearStart(y) + (if IsLeap(y) then 366 else 365)
  {
    assert y / 4 - (y - 1) / 4 == if y % 4 == 0 then 1 else 0;
    assert y / 100 - (y - 1) / 100 == if y % 100 == 0 then 1 else 0;
    assert y / 400 - (y - 1) / 400 == if y % 400 == 0 then 1 else 0;
    assert y % 400 == 0 ==> y % 100 == 0;
    assert y % 100 == 0 ==> y % 4 == 0;
  }

  lemma NextDayIsSuccessor(d: Date)
    requires ValidDate(d)
    ensures ValidDate(NextDay(d))
    ensures DayNumber(NextDay(d)) == DayNumber(d) + 1
  {
    if d.month == 12 && d.day == 31 {
      YearLength(d.year);
    }
  }

  lemma {:induction false} CalendarDayNumber(k: nat)
    ensures ValidDate(CalendarDay(k))
    ensures DayNumber(CalendarDay(k)) == ORIGIN + k
  {
    if k > 0 {
      CalendarDayNumber(k - 1);
      NextDayIsSuccessor(CalendarDay(k - 1));
    }
  }

  lemma LaterYearIsLater(a: Date, b: Date)
    requires ValidDate(a) && ValidDate(b)
    requires a.year < b.year
    ensures DayNumber(a) < DayNumber(b)
  {
    YearLength(a.year);
    var x, y := a.year, b.year - 1;
    assert x / 4 <= y / 4 && x / 400 <= y / 400;
    assert y / 100 - x / 100 <= y - x;
    assert YearStart(a.year + 1) <= YearStart(b.year);
  }

  /** A day has one date. */
  lemma DayNumberIsInjective(a: Date, b: Date)
    requires ValidDate(a) && ValidDate(b)
    requires DayNumber(a) == DayNumber(b)
    ensures a == b
  {
    if a.year < b.year {
      LaterYearIsLater(a, b);
    } else if b.year < a.year {
      LaterYearIsLater(b, a);
    }
  }

  // ---------------------------------------------------------------- j2date

  const TWO32: int := 0x1_0000_0000

  /** Arithmetic of C's 32-bit unsigned int. */
  function U32(x: int): int {
    x % TWO32
  }

  predicate IsInt32(x: int) {
    -0x8000_0000 <= x < 0x8000_0000
  }

  /** j2date up to its second division: the day in a calendar where every fourth year is leap. */
  function JulianCount(jd: int): int {
    var j0 := U32(U32(jd) + 32044);
    var extra := U32((j0 - (j0 / 146097) * 146097) * 4 + 3);
    U32(j0 + 60 + (j0 / 146097) * 3 + extra / 146097)
  }

  /** The rest of j2date. */
  function CountToDate(j1: int): Date {
    var s := j1 - (j1 / 1461) * 1461;
    var y := s * 4 / 1461;
    var x := (if y != 0 then (s + 305) % 365 else (s + 306) % 366) + 123;
    var m := x * 2141 / 65536;
    Date(y + (j1 / 1461) * 4 - 4800, (m + 10) % 12 + 1, x - 7834 * m / 256)
  }

  /** What j2date computes, wrap-around included. */
  function JulianToDate(jd: int): Date {
    CountToDate(JulianCount(jd))
  }

  /** The assignments themselves, on one reused `julian` and one reused `quad`. */
  method J2date(jd: int) returns (year: int, month: int, day: int)
    requires IsInt32(jd)
    ensures Date(year, month, day) == JulianToDate(jd)
    ensures jd >= ORIGIN ==> Date(year, month, day) == CalendarDay(jd - ORIGIN)
    ensures ValidDate(Date(year, month, day)) && DayNumber(Date(year, month, day)) == jd <==> jd >= ORIGIN
  {
    var julian := U32(jd);
    julian := U32(julian + 32044);
    var quad := julian / 146097;
    var extra := U32((julian - quad * 146097) * 4 + 3);
    julian := U32(julian + 60 + quad * 3 + extra / 146097);
    quad := julian / 1461;
    julian := julian - quad * 1461;
    var y := julian * 4 / 1461;
    julian := (if y != 0 then (julian + 305) % 365 else (julian + 306) % 366) + 123;
    y := y + quad * 4;
    year := y - 4800;
    quad := julian * 2141 / 65536;
    day := julian - 7834 * quad / 256;
    month := (quad + 10) % 12 + 1;
    J2dateIsTheCalendar(jd);
  }

  function MarchOffset(m: int): int {
    if m == 3 then 0
    else if m == 4 then 31
    else if m == 5 then 61
    else if m == 6 then 92
    else if m == 7 then 122
    else if m == 8 then 153
    else if m == 9 then 184
    else if m == 10 then 214
    else if m == 11 then 245
    else if m == 12 then 275
    else if m == 1 then 306
    else 337
  }

  /** The 2141/65536 and 7834/256 multiplications find month and day for each of the 366 places. */
  lemma MonthAndDay(x: int, k: int, month: int, day: int)
    requires 123 <= x <= 488
    requires k == x * 2141 / 65536
    requires month == (k + 10) % 12 + 1 && day == x - 7834 * k / 256
    ensures 1 <= month <= 12
    ensures x - 123 == MarchOffset(month) + day - 1
    ensures 1 <= day <= (if month == 2 then 29 else DaysInMonth(1, month))
    ensures (month >= 3) <==> x - 123 < 306
  {
    assert 4 <= k <= 15;
  }

  /** The year and the place in it, for a day counted in 1461-day cycles from 1 January. */
  lemma YearInCycle(s: int, y: int, x: int)
    requires 0 <= s < 1461
    requires y == s * 4 / 1461
    requires x == (if y != 0 then (s + 305) % 365 else (s + 306) % 366)
    ensures 0 <= y <= 3
    ensures 0 <= x <= (if y == 0 then 365 else 364)
    ensures s == 365 * y + (if y > 0 then 1 else 0)
                 + (if x < 306 then x + (if y == 0 then 60 else 59) else x - 306)
  {
  }

  /** The day 1 January falls on in year 400q + 100c + 4u + y of the cycle that starts at -4800. */
  lemma CycleYearStart(q: int, c: int, u: int, y: int, year: int)
    requires 0 <= c <= 3 && 0 <= u <= 25 && 0 <= y <= 3 && (u == 25 ==> y == 0)
    requires year == 400 * q + 100 * c + 4 * u + y - 4800
    ensures YearStart(year) == ORIGIN - 60 + 146097 * q + 36524 * c + 1461 * u + 365 * y
                               + (if y > 0 then 1 else 0) + (if c > 0 && u == 0 && y == 0 then 1 else 0)
    ensures IsLeap(year) <==> y == 0 && (u == 25 ==> c == 3) && (u == 0 ==> c == 0)
  {
    var first := if u == 0 && y == 0 then 1 else 0;
    Quotient(year - 1, 4, 100 * q + 25 * c + u - 1200 - (if y == 0 then 1 else 0));
    Quotient(year - 1, 100, 4 * q + c - 48 - first);
    Quotient(year - 1, 400, q - 12 - (if c == 0 then first else 0));
    CycleLeap(q, c, u, y, year);
  }

  lemma CycleLeap(q: int, c: int, u: int, y: int, year: int)
    requires 0 <= c <= 3 && 0 <= u <= 25 && 0 <= y <= 3 && (u == 25 ==> y == 0)
    requires year == 400 * q + 100 * c + 4 * u + y - 4800
    ensures IsLeap(year) <==> y == 0 && (u == 25 ==> c == 3) && (u == 0 ==> c == 0)
  {
    Quotient(year, 4, 100 * q + 25 * c + u - 1200);
    Quotient(year, 100, 4 * q + c - 48 + u / 25);
    Quotient(year, 400, q - 12 + (if u == 25 && c == 3 then 1 else 0));
  }

  /** No wrap after the first addition: n days after the origin, cut at 400 and 100 years. */
  lemma CycleDate(n: int, q: int, c: int, t: int, date: Date)
    requires n >= 0 && 0 <= c <= 3 && 0 <= t <= (if c == 3 then 36524 else 36523)
    requires n == 146097 * q + 36524 * c + t
    requires var u := (t + 60) / 1461; var s := (t + 60) % 1461; var y := s * 4 / 1461;
             var x := (if y != 0 then (s + 305) % 365 else (s + 306) % 366) + 123;
             var m := x * 2141 / 65536;
             date == Date(400 * q + 100 * c + 4 * u + y - 4800, (m + 10) % 12 + 1, x - 7834 * m / 256)
    ensures ValidDate(date) && DayNumber(date) == ORIGIN + n
  {
    var u, s := (t + 60) / 1461, (t + 60) % 1461;
    var y := s * 4 / 1461;
    var x := if y != 0 then (s + 305) % 365 else (s + 306) % 366;
    var m := (x + 123) * 2141 / 65536;
    YearInCycle(s, y, x);
    MonthAndDay(x + 123, m, date.month, date.day);
    CycleYearStart(q, c, u, y, date.year);
    FromMarch(date, x);
  }

  lemma FromMarch(date: Date, x: int)
    requires 1 <= date.month <= 12 && x == MarchOffset(date.month) + date.day - 1
    ensures DaysBeforeMonth(date.year, date.month) + date.day - 1
            == if date.month >= 3 then x + (if IsLeap(date.year) then 60 else 59) else x - 306
  {
  }

  lemma J2dateIsTheCalendar(jd: int)
    requires IsInt32(jd)
    ensures jd >= ORIGIN ==> JulianToDate(jd) == CalendarDay(jd - ORIGIN)
    ensures ValidDate(JulianToDate(jd)) && DayNumber(JulianToDate(jd)) == jd <==> jd >= ORIGIN
  {
    if jd >= ORIGIN {
      InRange(jd);
      CalendarDayNumber(jd - ORIGIN);
      DayNumberIsInjective(JulianToDate(jd), CalendarDay(jd - ORIGIN));
    } else {
      OutOfRange(jd);
    }
  }

  lemma InRange(jd: int)
    requires ORIGIN <= jd < 0x8000_0000
    ensures ValidDate(JulianToDate(jd)) && DayNumber(JulianToDate(jd)) == jd
  {
    hide JulianCount, ValidDate, DayNumber;
    var n := jd - ORIGIN;
    var q, r := n / 146097, n % 146097;
    var c := (4 * r + 3) / 146097;
    var t := r - 36524 * c;
    assert 0 <= c <= 3 && 0 <= t <= (if c == 3 then 36524 else 36523);
    CountInRange(jd, q, c);
    var j1 := n + 60 + q * 3 + c;
    var u := (t + 60) / 1461;
    Quotient(j1, 1461, 100 * q + 25 * c + u);
    CycleDate(n, q, c, t, CountToDate(j1));
  }

  lemma CountInRange(jd: int, q: int, c: int)
    requires ORIGIN <= jd < 0x8000_0000
    requires q == (jd - ORIGIN) / 146097 && c == (4 * ((jd - ORIGIN) % 146097) + 3) / 146097
    ensures JulianCount(jd) == jd - ORIGIN + 60 + q * 3 + c
  {
    UnsignedStart(jd);
    NoWrap((jd - ORIGIN) % 146097 * 4 + 3);
    NoWrap(jd - ORIGIN + 60 + q * 3 + c);
  }

  /** A negative int is read as an unsigned one 2^32 above it. */
  lemma WrapsOnce(x: int)
    requires -0x1_0000_0000 <= x < 0
    ensures U32(x) == x + 0x1_0000_0000
  {
    Quotient(x, TWO32, -1);
  }

  lemma NoWrap(x: int)
    requires 0 <= x < TWO32
    ensures U32(x) == x
  {
  }

  lemma UnsignedStart(jd: int)
    requires IsInt32(jd)
    ensures U32(U32(jd) + 32044) == if jd >= ORIGIN then jd - ORIGIN else TWO32 + jd - ORIGIN
  {
    Quotient(jd, TWO32, if jd >= 0 then 0 else -1);
  }

  /** Below the origin the unsigned sum wraps, and what comes out is far later than jd. */
  lemma OutOfRange(jd: int)
    requires -0x8000_0000 <= jd < ORIGIN
    ensures ValidDate(JulianToDate(jd)) ==> DayNumber(JulianToDate(jd)) != jd
  {
    WrappedCount(jd);
    CountYear(JulianCount(jd));
    if ValidDate(JulianToDate(jd)) {
      YearBound(JulianToDate(jd));
    }
  }

  lemma WrappedCount(jd: int)
    requires -0x8000_0000 <= jd < ORIGIN
    ensures 0 <= JulianCount(jd) < TWO32
    ensures jd >= ORIGIN - 60 ==> JulianCount(jd) >= 88000
  {
    UnsignedStart(jd);
    if jd >= ORIGIN - 60 {
      var n := TWO32 + jd - ORIGIN;
      Quotient(n, 146097, 29398);
      var r := n % 146097;
      var c := (4 * r + 3) / 146097;
      assert 0 <= c <= 3;
      NoWrap(4 * r + 3);
      Quotient(n + 60 + 29398 * 3 + c, TWO32, 1);
    }
  }

  lemma CountYear(j1: int)
    requires 0 <= j1
    ensures CountToDate(j1).year >= -4800
    ensures j1 >= 88000 ==> CountToDate(j1).year >= -4600
  {
    var s := j1 - (j1 / 1461) * 1461;
    assert 0 <= s < 1461;
  }

  lemma YearBound(date: Date)
    requires ValidDate(date)
    ensures date.year >= -4800 ==> DayNumber(date) >= ORIGIN - 60
    ensures date.year >= -4600 ==> DayNumber(date) > ORIGIN
  {
    if date.year > -4800 {
      LaterYearIsLater(Date(-4800, 1, 1), date);
    }
    if date.year >= -4600 {
      LaterYearIsLater(Date(-4601, 1, 1), date);
    }
  }

  /** Month and day come out in range even where the day count has wrapped. */
  lemma JulianToDateInRange(jd: int)
    ensures 1 <= JulianToDate(jd).month <= 12 && 1 <= JulianToDate(jd).day <= 31
  {
    var j1 := JulianCount(jd);
    var s := j1 - (j1 / 1461) * 1461;
    assert 0 <= s < 1461;
    var y := s * 4 / 1461;
    var x := if y != 0 then (s + 305) % 365 else (s + 306) % 366;
    YearInCycle(s, y, x);
    var d := CountToDate(j1);
    MonthAndDay(x + 123, (x + 123) * 2141 / 65536, d.month, d.day);
  }

  // ---------------------------------------------------------------- timestamps

  // Julian day of 2000-01-01, the day PostgreSQL counts from.
  const EPOCH: int := 2451545
  const USECS_PER_DAY: int := 86_400_000_000
  const DT_NOBEGIN: int := -0x8000_0000_0000_0000
  const DT_NOEND: int := 0x7FFF_FFFF_FFFF_FFFF
  // The first microsecond of the calendar's origin.
  const FIRST_TIMESTAMP: int := (ORIGIN - EPOCH) * USECS_PER_DAY

  predicate IsInt64(x: int) {
    -0x8000_0000_0000_0000 <= x < 0x8000_0000_0000_0000
  }

  /** What decode_timestamp_internal prints: a year of the common era or BC, and the clock. */
  datatype Printed = Printed(year: int, bc: bool, month: int, day: int,
                             hour: int, minute: int, second: int, usec: int)

  /** decode_date and decode_timestamp_internal print year 0 as 1 BC. */
  function PrintedYear(year: int): int {
    if year <= 0 then -year + 1 else year
  }

  function PrintedStamp(date: Date, usec: int): Printed {
    var sec := usec / 1_000_000;
    Printed(PrintedYear(date.year), date.year <= 0, date.month, date.day,
            sec / 60 / 60, (sec / 60) % 60, sec % 60, usec % 1_000_000)
  }

  /** Reading the printed fields back: the date they name and the microseconds since 2000-01-01. */
  function ReadDate(p: Printed): Date {
    Date(if p.bc then 1 - p.year else p.year, p.month, p.day)
  }

  function ReadStamp(p: Printed): int {
    (DayNumber(ReadDate(p)) - EPOCH) * USECS_PER_DAY
    + ((p.hour * 60 + p.minute) * 60 + p.second) * 1_000_000 + p.usec
  }

  /** The day and time of day the C code splits off; its truncating division is corrected to a floor. */
  method SplitTimestamp(stamp: int) returns (jd: int, timestamp: int)
    requires IsInt64(stamp)
    ensures IsInt32(jd) && jd == stamp / USECS_PER_DAY + EPOCH
    ensures timestamp == stamp % USECS_PER_DAY
  {
    timestamp := stamp;
    jd := CDiv(timestamp, USECS_PER_DAY);
    assert IsInt32(jd);
    if jd != 0 {
      timestamp := timestamp - jd * USECS_PER_DAY;
    }
    if timestamp < 0 {
      timestamp := timestamp + USECS_PER_DAY;
      jd := jd - 1;
    }
    Quotient(stamp, USECS_PER_DAY, jd);
    jd := jd + EPOCH;
  }

  /** The fields decode_timestamp_internal prints for a finite timestamp. */
  function StampFields(stamp: int): Printed {
    PrintedStamp(JulianToDate(stamp / USECS_PER_DAY + EPOCH), stamp % USECS_PER_DAY)
  }

  method DecodeTimestamp(stamp: int) returns (p: Printed)
    requires IsInt64(stamp)
    ensures p == StampFields(stamp)
    ensures ValidDate(ReadDate(p)) && ReadStamp(p) == stamp <==> stamp >= FIRST_TIMESTAMP
  {
    var jd, timestamp := SplitTimestamp(stamp);
    var year, month, day := J2date(jd);
    var sec := timestamp / 1_000_000;
    p := Printed(if year <= 0 then -year + 1 else year, year <= 0, month, day,
                 sec / 60 / 60, (sec / 60) % 60, sec % 60, timestamp % 1_000_000);
    StampIsRecovered(stamp);
  }

  /** Reading the printed timestamp gives the stored one exactly from the calendar's origin on. */
  lemma StampIsRecovered(stamp: int)
    requires IsInt64(stamp)
    ensures ValidDate(ReadDate(StampFields(stamp))) && ReadStamp(StampFields(stamp)) == stamp
            <==> stamp >= FIRST_TIMESTAMP
  {
    var day, usec := stamp / USECS_PER_DAY, stamp % USECS_PER_DAY;
    var jd := day + EPOCH;
    assert IsInt32(jd);
    J2dateIsTheCalendar(jd);
    ClockIsRecovered(usec);
    var p := StampFields(stamp);
    assert ReadDate(p) == JulianToDate(jd);
    assert ReadStamp(p) == (DayNumber(JulianToDate(jd)) - EPOCH) * USECS_PER_DAY + usec;
    Quotient(ReadStamp(p), USECS_PER_DAY, DayNumber(JulianToDate(jd)) - EPOCH);
  }

  lemma ClockIsRecovered(usec: int)
    requires 0 <= usec < USECS_PER_DAY
    ensures var sec := usec / 1_000_000;
            ((sec / 60 / 60 * 60 + (sec / 60) % 60) * 60 + sec % 60) * 1_000_000 + usec % 1_000_000 == usec
  {
  }
}
