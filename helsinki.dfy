/**
 * Wall-clock time in Europe/Helsinki, the market's delivery zone.
 *
 * Finland keeps UTC+2 and applies the EU summer-time rule of Directive 2000/84/EC:
 * UTC+3 from 01:00 UTC on the last Sunday of March until 01:00 UTC on the last
 * Sunday of October.  Utc is the zone the Go service falls back to when the zone
 * database cannot be loaded.
 */
module Helsinki {
  import opened Civil

  datatype Zone = EuropeHelsinki | Utc

  const StandardOffset := 7200
  const SummerOffset := 10800
  /** Summer time starts and ends at 01:00:00 UTC. */
  const SwitchSecond := 3600

  /** Day number of the last Sunday of month m of year y. */
  function LastSunday(y: int, m: int): (z: int)
    requires 1 <= m <= 12
    ensures Weekday(z) == 0
    ensures DaysFromCivil(Date(y, m, DaysInMonth(y, m))) - 6 <= z <= DaysFromCivil(Date(y, m, DaysInMonth(y, m)))
  {
    var last := DaysFromCivil(Date(y, m, DaysInMonth(y, m)));
    SundayOnOrBefore(last);
    last - Weekday(last)
  }

  /** Stepping back by its weekday number from any day lands on a Sunday. */
  lemma SundayOnOrBefore(z: int)
    ensures Weekday(z - Weekday(z)) == 0
  {
    var k := (z + 4) / 7;
    assert z - Weekday(z) + 4 == 7 * k;
  }

  predicate IsSummerTime(t: int) {
    var y := UtcDate(t).year;
    LastSunday(y, 3) * SecondsPerDay + SwitchSecond <= t < LastSunday(y, 10) * SecondsPerDay + SwitchSecond
  }

  /** Seconds the zone's wall clock is ahead of UTC at instant t. */
  function OffsetAt(zone: Zone, t: int): (off: int)
    ensures zone == Utc ==> off == 0
    ensures zone == EuropeHelsinki ==> off == StandardOffset || off == SummerOffset
  {
    match zone
    case Utc => 0
    case EuropeHelsinki => if IsSummerTime(t) then SummerOffset else StandardOffset
  }

  /** The calendar date on the zone's wall clock at instant t (Go's t.In(zone), Year/Month/Day). */
  function LocalDate(zone: Zone, t: int): (d: Date)
    ensures ValidDate(d)
  {
    CivilFromDays((t + OffsetAt(zone, t)) / SecondsPerDay)
  }

  /**
   * The offset in force at 00:00 on date d.  Helsinki changes its clocks at 03:00 and
   * 04:00 local time, so midnight is never skipped or repeated: 00:00 on the last
   * Sunday of March is still standard time, 00:00 on the last Sunday of October still
   * summer time.
   */
  function MidnightOffset(zone: Zone, d: Date): (off: int)
    requires ValidDate(d)
    ensures zone == Utc ==> off == 0
    ensures zone == EuropeHelsinki ==> off == StandardOffset || off == SummerOffset
  {
    match zone
    case Utc => 0
    case EuropeHelsinki =>
      var z := DaysFromCivil(d);
      if LastSunday(d.year, 3) < z <= LastSunday(d.year, 10) then SummerOffset else StandardOffset
  }

  /** time.Date(y, m, d, 0, 0, 0, 0, zone): the instant of midnight at the start of d. */
  function LocalMidnight(zone: Zone, d: Date): int
    requires ValidDate(d)
  {
    DaysFromCivil(d) * SecondsPerDay - MidnightOffset(zone, d)
  }

  /** A day number in [DaysBeforeYear(y), DaysBeforeYear(y + 1)) belongs to year y. */
  lemma YearOfDayNumber(z: int, y: int)
    requires DaysBeforeYear(y) <= z < DaysBeforeYear(y + 1)
    ensures CivilFromDays(z).year == y
  {
    var d := CivilFromDays(z);
    DaysFromCivilInYear(d);
    if d.year < y {
      DaysBeforeYearMonotone(d.year, y);
    } else if d.year > y {
      DaysBeforeYearMonotone(y, d.year);
    }
  }

  lemma LastSundayInYear(y: int, m: int)
    requires 1 <= m <= 12
    ensures DaysBeforeYear(y) + DaysBeforeMonth(y, m) + DaysInMonth(y, m) - 7 <= LastSunday(y, m)
    ensures LastSunday(y, m) < DaysBeforeYear(y) + DaysBeforeMonth(y, m) + DaysInMonth(y, m)
  {
  }

  /** Seen from an instant just before the start of day z, a 01:00 UTC switch on day a is passed iff a < z. */
  lemma SwitchBeforeDay(t: int, z: int, off: int, a: int)
    requires t == z * SecondsPerDay - off && StandardOffset <= off <= SummerOffset
    ensures t / SecondsPerDay == z - 1
    ensures a * SecondsPerDay + SwitchSecond <= t <==> a < z
  {
    assert t == (z - 1) * SecondsPerDay + (SecondsPerDay - off);
    if a < z {
      assert a * SecondsPerDay <= (z - 1) * SecondsPerDay;
    } else {
      assert a * SecondsPerDay >= z * SecondsPerDay;
    }
  }

  lemma SummerTimeAt(t: int, y: int, z: int, off: int)
    requires t == z * SecondsPerDay - off && StandardOffset <= off <= SummerOffset
    requires UtcDate(t).year == y
    ensures IsSummerTime(t) <==> LastSunday(y, 3) < z <= LastSunday(y, 10)
  {
    SwitchBeforeDay(t, z, off, LastSunday(y, 3));
    SwitchBeforeDay(t, z, off, LastSunday(y, 10));
  }

  /** The rule's instant-based summer time, read at local midnight, agrees with MidnightOffset. */
  lemma MidnightOffsetAgrees(d: Date)
    requires ValidDate(d)
    ensures OffsetAt(EuropeHelsinki, LocalMidnight(EuropeHelsinki, d)) == MidnightOffset(EuropeHelsinki, d)
  {
    var z := DaysFromCivil(d);
    DaysFromCivilInYear(d);
    if z == DaysBeforeYear(d.year) {
      NewYearMidnight(d);
    } else {
      MidYearMidnight(d.year, z, MidnightOffset(EuropeHelsinki, d));
    }
  }

  /** After January 1st, the instant before midnight lies in the same year, whose summer period decides. */
  lemma MidYearMidnight(y: int, z: int, off: int)
    requires DaysBeforeYear(y) < z < DaysBeforeYear(y + 1)
    requires off == StandardOffset || off == SummerOffset
    ensures IsSummerTime(z * SecondsPerDay - off) <==> LastSunday(y, 3) < z <= LastSunday(y, 10)
  {
    var t := z * SecondsPerDay - off;
    SwitchBeforeDay(t, z, off, 0);
    YearOfDayNumber(z - 1, y);
    SummerTimeAt(t, y, z, off);
  }

  /** January 1st: standard time at midnight, and the instant still lies in last year's winter. */
  lemma NewYearMidnight(d: Date)
    requires ValidDate(d) && DaysFromCivil(d) == DaysBeforeYear(d.year)
    ensures MidnightOffset(EuropeHelsinki, d) == StandardOffset
    ensures !IsSummerTime(DaysFromCivil(d) * SecondsPerDay - StandardOffset)
  {
    LastSundayInYear(d.year, 3);
    WinterBeforeNewYear(d.year - 1);
    DaysBeforeYearStep(d.year - 1);
  }

  /** Two hours before the UTC start of year y + 1, summer time of year y is over. */
  lemma WinterBeforeNewYear(y: int)
    ensures !IsSummerTime(DaysBeforeYear(y + 1) * SecondsPerDay - StandardOffset)
  {
    var z := DaysBeforeYear(y + 1);
    var t := z * SecondsPerDay - StandardOffset;
    SwitchBeforeDay(t, z, StandardOffset, 0);
    DaysBeforeYearStep(y);
    YearOfDayNumber(z - 1, y);
    SummerTimeAt(t, y, z, StandardOffset);
    LastSundayBeforeNewYear(y);
  }

  /** The last Sunday of October comes before the next January 1st. */
  lemma LastSundayBeforeNewYear(y: int)
    ensures LastSunday(y, 10) < DaysBeforeYear(y + 1)
  {
    LastSundayInYear(y, 10);
    DaysBeforeMonthStep(y, 10);
    DaysBeforeMonthMonotone(y, 10, 12);
    DaysBeforeMonthStep(y, 12);
    DaysBeforeYearStep(y);
  }

  /** LocalMidnight really is 00:00 on d in the zone. */
  lemma LocalMidnightIsMidnight(zone: Zone, d: Date)
    requires ValidDate(d)
    ensures OffsetAt(zone, LocalMidnight(zone, d)) == MidnightOffset(zone, d)
    ensures LocalDate(zone, LocalMidnight(zone, d)) == d
    ensures (LocalMidnight(zone, d) + OffsetAt(zone, LocalMidnight(zone, d))) % SecondsPerDay == 0
  {
    if zone == EuropeHelsinki {
      MidnightOffsetAgrees(d);
    }
    CivilRoundTrip(d);
  }

  /** Later dates have later midnights: comparing midnights compares calendar dates. */
  lemma LocalMidnightOrder(zone: Zone, a: Date, b: Date)
    requires ValidDate(a) && ValidDate(b)
    ensures LocalMidnight(zone, a) > LocalMidnight(zone, b) <==> IsAfter(a, b)
  {
    DaysFromCivilOrder(a, b);
  }

  /** Local midnights are strictly increasing with the day number. */
  lemma LocalMidnightMonotone(zone: Zone, a: Date, b: Date)
    requires ValidDate(a) && ValidDate(b)
    ensures DaysFromCivil(a) < DaysFromCivil(b) ==> LocalMidnight(zone, a) < LocalMidnight(zone, b)
    ensures DaysFromCivil(a) == DaysFromCivil(b) ==> LocalMidnight(zone, a) == LocalMidnight(zone, b)
  {
    LocalMidnightOrder(zone, b, a);
    DaysFromCivilOrder(b, a);
  }

  /** The summer period lies well inside its calendar year. */
  lemma SummerInsideYear(y: int, z: int)
    requires LastSunday(y, 3) <= z <= LastSunday(y, 10) + 1
    ensures CivilFromDays(z).year == y
  {
    LastSundayInYear(y, 3);
    LastSundayInYear(y, 10);
    DaysBeforeYearStep(y);
    YearOfDayNumber(z, y);
  }

  /** Seen from the UTC day of a summer-time instant, the summer period bounds that day. */
  lemma SummerDay(t: int)
    requires IsSummerTime(t)
    ensures var y := UtcDate(t).year;
      LastSunday(y, 3) <= t / SecondsPerDay <= LastSunday(y, 10)
  {
    var y := UtcDate(t).year;
    var a := LastSunday(y, 3);
    var b := LastSunday(y, 10);
    assert a * SecondsPerDay <= t;
    assert t < (b + 1) * SecondsPerDay;
  }

  /** Lower half of LocalDateBracket: the local date's midnight is not after t. */
  lemma MidnightNotAfter(t: int)
    ensures LocalMidnight(EuropeHelsinki, LocalDate(EuropeHelsinki, t)) <= t
  {
    var off := OffsetAt(EuropeHelsinki, t);
    var z := (t + off) / SecondsPerDay;
    var d := LocalDate(EuropeHelsinki, t);
    assert DaysFromCivil(d) == z;
    assert z * SecondsPerDay <= t + off;
    if MidnightOffset(EuropeHelsinki, d) < off {
      var u := t / SecondsPerDay;
      var y := UtcDate(t).year;
      SummerDay(t);
      assert z == u || z == u + 1;
      SummerInsideYear(y, z);
      assert d.year == y;
      assert z <= LastSunday(y, 3);
      assert z * SecondsPerDay <= LastSunday(y, 3) * SecondsPerDay;
    }
  }

  /** Upper half of LocalDateBracket: t comes before the next local midnight. */
  lemma BeforeNextMidnight(t: int)
    ensures t < LocalMidnight(EuropeHelsinki, AddDays(LocalDate(EuropeHelsinki, t), 1))
  {
    var off := OffsetAt(EuropeHelsinki, t);
    var z := (t + off) / SecondsPerDay;
    var d := LocalDate(EuropeHelsinki, t);
    var next := AddDays(d, 1);
    assert DaysFromCivil(next) == z + 1;
    assert t + off < (z + 1) * SecondsPerDay;
    if MidnightOffset(EuropeHelsinki, next) > off {
      var y2 := next.year;
      assert LastSunday(y2, 3) < z + 1 <= LastSunday(y2, 10);
      if (z + 1) * SecondsPerDay - SummerOffset <= t {
        assert t / SecondsPerDay == z;
        SummerInsideYear(y2, z);
        assert false;
      }
    }
  }

  /** Every instant lies between the midnight that starts its local date and the next one. */
  lemma LocalDateBracket(zone: Zone, t: int)
    ensures LocalMidnight(zone, LocalDate(zone, t)) <= t
    ensures t < LocalMidnight(zone, AddDays(LocalDate(zone, t), 1))
  {
    if zone == EuropeHelsinki {
      MidnightNotAfter(t);
      BeforeNextMidnight(t);
    } else {
      var d := LocalDate(zone, t);
      assert DaysFromCivil(d) == t / SecondsPerDay;
      assert DaysFromCivil(AddDays(d, 1)) == t / SecondsPerDay + 1;
    }
  }

  /**
   * An instant is at or after the midnight of day a exactly when its local date is a or
   * later: comparing with local midnights compares local dates.
   */
  lemma AtOrAfterMidnight(zone: Zone, a: Date, t: int)
    requires ValidDate(a)
    ensures LocalMidnight(zone, a) <= t <==> DaysFromCivil(a) <= DaysFromCivil(LocalDate(zone, t))
  {
    var d := LocalDate(zone, t);
    LocalDateBracket(zone, t);
    LocalMidnightMonotone(zone, a, d);
    var next := AddDays(d, 1);
    if DaysFromCivil(a) > DaysFromCivil(d) {
      LocalMidnightMonotone(zone, next, a);
    }
  }

  /**
   * October 2023: summer time ends at 01:00 UTC on Sunday the 29th (day 19659), so the
   * 29th lasts 25 hours on the Helsinki wall clock.
   */
  lemma AutumnChange2023()
    ensures LocalMidnight(EuropeHelsinki, Date(2023, 10, 27)) == 1698354000
    ensures LocalMidnight(EuropeHelsinki, Date(2023, 10, 28)) == 1698440400
    ensures LocalMidnight(EuropeHelsinki, Date(2023, 10, 29)) == 1698526800
    ensures LocalMidnight(EuropeHelsinki, Date(2023, 10, 30)) == 1698616800
  {
    assert DaysFromCivil(Date(2023, 3, 31)) == 19447;
    assert LastSunday(2023, 3) == 19442;
    assert DaysFromCivil(Date(2023, 10, 31)) == 19661;
    assert LastSunday(2023, 10) == 19659;
    assert DaysFromCivil(Date(2023, 10, 27)) == 19657;
  }
}
