/**
 * Proleptic Gregorian calendar arithmetic over Unix time.
 *
 * An instant is a whole number of seconds since 1970-01-01T00:00:00Z; a civil
 * date is (year, month, day).  Day numbers count days since 1970-01-01, so the
 * UTC day of an instant t is t / 86400 (Dafny's division rounds down for a
 * positive divisor, as the calendar needs for instants before 1970).
 */
module Civil {

  datatype Date = Date(year: int, month: int, day: int)

  const SecondsPerDay := 86400

  /** Days from 0001-01-01 to 1970-01-01. */
  const EpochOffset := 719162

  predicate IsLeapYear(y: int) {
    y % 4 == 0 && (y % 100 != 0 || y % 400 == 0)
  }

  function YearLength(y: int): int {
    if IsLeapYear(y) then 366 else 365
  }

  function DaysInMonth(y: int, m: int): (n: int)
    requires 1 <= m <= 12
    ensures 28 <= n <= 31
  {
    if m == 2 then (if IsLeapYear(y) then 29 else 28)
    else if m == 4 || m == 6 || m == 9 || m == 11 then 30
    else 31
  }

  predicate ValidDate(d: Date) {
    1 <= d.month <= 12 && 1 <= d.day <= DaysInMonth(d.year, d.month)
  }

  /** Java's LocalDate.isAfter: lexicographic on (year, month, day). */
  predicate IsAfter(a: Date, b: Date) {
    a.year > b.year
    || (a.year == b.year && a.month > b.month)
    || (a.year == b.year && a.month == b.month && a.day > b.day)
  }

  /** Day number of January 1st of year y. */
  function DaysBeforeYear(y: int): int {
    var p := y - 1;
    365 * p + p / 4 - p / 100 + p / 400 - EpochOffset
  }

  /** Days from January 1st to the first day of month m (m == 13: the whole year). */
  function DaysBeforeMonth(y: int, m: int): int
    requires 1 <= m <= 13
  {
    var base :=
      if m == 1 then 0 else if m == 2 then 31 else if m == 3 then 59
      else if m == 4 then 90 else if m == 5 then 120 else if m == 6 then 151
      else if m == 7 then 181 else if m == 8 then 212 else if m == 9 then 243
      else if m == 10 then 273 else if m == 11 then 304 else if m == 12 then 334
      else 365;
    if m > 2 && IsLeapYear(y) then base + 1 else base
  }

  /** Day number (days since 1970-01-01) of a valid civil date. */
  function DaysFromCivil(d: Date): int
    requires ValidDate(d)
  {
    DaysBeforeYear(d.year) + DaysBeforeMonth(d.year, d.month) + d.day - 1
  }

  lemma DaysBeforeMonthStep(y: int, m: int)
    requires 1 <= m <= 12
    ensures DaysBeforeMonth(y, m + 1) == DaysBeforeMonth(y, m) + DaysInMonth(y, m)
    ensures DaysBeforeMonth(y, 13) == YearLength(y)
  {
  }

  lemma DaysBeforeYearStep(y: int)
    ensures DaysBeforeYear(y + 1) == DaysBeforeYear(y) + YearLength(y)
  {
    var p := y - 1;
    assert p + 1 == y;
    assert (p + 1) / 4 == p / 4 + (if y % 4 == 0 then 1 else 0);
    assert (p + 1) / 100 == p / 100 + (if y % 100 == 0 then 1 else 0);
    assert (p + 1) / 400 == p / 400 + (if y % 400 == 0 then 1 else 0);
  }

  lemma {:induction false} DaysBeforeYearMonotone(a: int, b: int)
    requires a <= b
    ensures DaysBeforeYear(a) <= DaysBeforeYear(b)
    ensures a < b ==> DaysBeforeYear(a + 1) <= DaysBeforeYear(b)
    decreases b - a
  {
    if a < b {
      DaysBeforeYearStep(a);
      DaysBeforeYearMonotone(a + 1, b);
    }
  }

  lemma DaysBeforeMonthMonotone(y: int, m1: int, m2: int)
    requires 1 <= m1 < m2 <= 13
    ensures DaysBeforeMonth(y, m1 + 1) <= DaysBeforeMonth(y, m2)
  {
  }

  /** The day number of a valid date lies inside its own year. */
  lemma DaysFromCivilInYear(d: Date)
    requires ValidDate(d)
    ensures DaysBeforeYear(d.year) <= DaysFromCivil(d) < DaysBeforeYear(d.year + 1)
  {
    DaysBeforeMonthStep(d.year, d.month);
    DaysBeforeMonthMonotone(d.year, d.month, 13);
    DaysBeforeYearStep(d.year);
  }

  /** Calendar order and day-number order agree on valid dates. */
  lemma DaysFromCivilOrder(a: Date, b: Date)
    requires ValidDate(a) && ValidDate(b)
    ensures IsAfter(a, b) <==> DaysFromCivil(a) > DaysFromCivil(b)
    ensures a == b <==> DaysFromCivil(a) == DaysFromCivil(b)
  {
    DaysFromCivilInYear(a);
    DaysFromCivilInYear(b);
    if a.year < b.year {
      DaysBeforeYearMonotone(a.year, b.year);
    } else if a.year > b.year {
      DaysBeforeYearMonotone(b.year, a.year);
    } else if a.month < b.month {
      DaysBeforeMonthStep(a.year, a.month);
      DaysBeforeMonthMonotone(a.year, a.month, b.month);
    } else if a.month > b.month {
      DaysBeforeMonthStep(b.year, b.month);
      DaysBeforeMonthMonotone(b.year, b.month, a.month);
    }
  }

  /** January 1st of year 1 + 400 era + 100 c + 4 q + yy, by cycle counts. */
  lemma DaysBeforeYearByCycles(era: int, c: int, q: int, yy: int)
    requires 0 <= c <= 3 && 0 <= q <= 24 && 0 <= yy <= 3
    ensures DaysBeforeYear(1 + 400 * era + 100 * c + 4 * q + yy)
            == 146097 * era + 36524 * c + 1461 * q + 365 * yy - EpochOffset
  {
    var p := 400 * era + 100 * c + 4 * q + yy;
    assert p == 4 * (100 * era + 25 * c + q) + yy;
    assert p / 4 == 100 * era + 25 * c + q;
    assert p == 100 * (4 * era + c) + (4 * q + yy);
    assert p / 100 == 4 * era + c;
    assert p == 400 * era + (100 * c + 4 * q + yy);
    assert p / 400 == era;
  }

  /** The month containing day-of-year doy (0-based) of year y. */
  function MonthOfYearDay(y: int, doy: int): (m: int)
    requires 0 <= doy < YearLength(y)
    ensures 1 <= m <= 12
    ensures DaysBeforeMonth(y, m) <= doy < DaysBeforeMonth(y, m + 1)
  {
    var leap := if IsLeapYear(y) then 1 else 0;
    if doy < 31 then 1
    else if doy < 59 + leap then 2
    else if doy < 90 + leap then 3
    else if doy < 120 + leap then 4
    else if doy < 151 + leap then 5
    else if doy < 181 + leap then 6
    else if doy < 212 + leap then 7
    else if doy < 243 + leap then 8
    else if doy < 273 + leap then 9
    else if doy < 304 + leap then 10
    else if doy < 334 + leap then 11
    else 12
  }

  /** The fourth year of a four-year cycle is a leap year, except at a century that is not the last of its era. */
  lemma FourthYearIsLeap(era: int, c: int, q: int)
    requires 0 <= c <= 3 && 0 <= q <= 24
    ensures (q == 24 ==> c == 3) ==> IsLeapYear(1 + 400 * era + 100 * c + 4 * q + 3)
  {
    var y := 1 + 400 * era + 100 * c + 4 * q + 3;
    assert y == 4 * (1 + 100 * era + 25 * c + q);
    if q < 24 {
      assert y == 100 * (4 * era + c) + 4 * (q + 1);
      assert 4 <= 4 * (q + 1) < 100;
      assert y % 100 != 0;
    } else {
      if c == 3 {
        assert y == 400 * (era + 1);
      }
    }
  }

  /** Splits n days since 0001-01-01 into 400-year eras, centuries, four-year cycles and years. */
  function Cycles(n: int): (r: (int, int, int, int, int))
    ensures 0 <= r.1 <= 3 && 0 <= r.2 <= 24 && 0 <= r.3 <= 3
    ensures 0 <= r.4 <= 365
    ensures n == 146097 * r.0 + 36524 * r.1 + 1461 * r.2 + 365 * r.3 + r.4
    ensures r.4 == 365 ==> r.3 == 3 && (r.2 == 24 ==> r.1 == 3)
  {
    var era := n / 146097;
    var r400 := n % 146097;
    var c := if r400 / 36524 < 3 then r400 / 36524 else 3;
    var r100 := r400 - 36524 * c;
    assert 0 <= r100 <= 36524;
    assert r100 == 36524 ==> c == 3;
    var q := r100 / 1461;
    var r4 := r100 % 1461;
    assert q == 24 && r4 == 1460 ==> r100 == 36524;
    var yy := if r4 / 365 < 3 then r4 / 365 else 3;
    var doy := r4 - 365 * yy;
    (era, c, q, yy, doy)
  }

  /** Year of day number z, and the 0-based day of that year. */
  function YearOfDay(z: int): (r: (int, int))
    ensures 0 <= r.1 < YearLength(r.0)
    ensures DaysBeforeYear(r.0) + r.1 == z
  {
    var (era, c, q, yy, doy) := Cycles(z + EpochOffset);
    var y := 1 + 400 * era + 100 * c + 4 * q + yy;
    DaysBeforeYearByCycles(era, c, q, yy);
    FourthYearIsLeap(era, c, q);
    (y, doy)
  }

  /** Civil date of day number z: the inverse of DaysFromCivil. */
  function CivilFromDays(z: int): (d: Date)
    ensures ValidDate(d) && DaysFromCivil(d) == z
  {
    var (y, doy) := YearOfDay(z);
    var m := MonthOfYearDay(y, doy);
    DaysBeforeMonthStep(y, m);
    Date(y, m, doy - DaysBeforeMonth(y, m) + 1)
  }

  /** DaysFromCivil and CivilFromDays are inverse bijections. */
  lemma CivilRoundTrip(d: Date)
    requires ValidDate(d)
    ensures CivilFromDays(DaysFromCivil(d)) == d
  {
    DaysFromCivilOrder(CivilFromDays(DaysFromCivil(d)), d);
  }

  /** The date k days after d (k may be negative). */
  function AddDays(d: Date, k: int): (r: Date)
    requires ValidDate(d)
    ensures ValidDate(r) && DaysFromCivil(r) == DaysFromCivil(d) + k
  {
    CivilFromDays(DaysFromCivil(d) + k)
  }

  /** Day of week of day number z: 0 = Sunday, ..., 6 = Saturday (1970-01-01 was a Thursday). */
  function Weekday(z: int): (w: int)
    ensures 0 <= w < 7
  {
    (z + 4) % 7
  }

  lemma WeekdayPeriodic(z: int, k: int)
    ensures Weekday(z + 7 * k) == Weekday(z)
  {
  }

  /** UTC calendar date of an instant. */
  function UtcDate(t: int): (d: Date)
    ensures ValidDate(d)
  {
    CivilFromDays(t / SecondsPerDay)
  }

  /** Seconds elapsed since UTC midnight. */
  function SecondOfDay(t: int): (s: int)
    ensures 0 <= s < SecondsPerDay
  {
    t % SecondsPerDay
  }

  /** The instant at h:mi:s UTC on date d; out-of-range fields carry over as in Go's time.Date. */
  function InstantAt(d: Date, h: int, mi: int, s: int): int
    requires ValidDate(d)
  {
    DaysFromCivil(d) * SecondsPerDay + 3600 * h + 60 * mi + s
  }

  /** With in-range clock fields, InstantAt is inverted by UtcDate and SecondOfDay. */
  lemma InstantAtFields(d: Date, h: int, mi: int, s: int)
    requires ValidDate(d)
    requires 0 <= h < 24 && 0 <= mi < 60 && 0 <= s < 60
    ensures UtcDate(InstantAt(d, h, mi, s)) == d
    ensures SecondOfDay(InstantAt(d, h, mi, s)) == 3600 * h + 60 * mi + s
  {
    var t := InstantAt(d, h, mi, s);
    assert t / SecondsPerDay == DaysFromCivil(d);
    CivilRoundTrip(d);
  }

  /** Every instant is its UTC date's midnight plus its second of day. */
  lemma InstantDecomposes(t: int)
    ensures t == DaysFromCivil(UtcDate(t)) * SecondsPerDay + SecondOfDay(t)
    ensures DaysFromCivil(UtcDate(t)) == t / SecondsPerDay
  {
  }

  /** Moving by whole days keeps the second of day. */
  lemma SecondOfDayShift(t: int, k: int)
    ensures SecondOfDay(t + k * SecondsPerDay) == SecondOfDay(t)
    ensures (t + k * SecondsPerDay) / SecondsPerDay == t / SecondsPerDay + k
  {
  }
}
