/**
 * The Go service's time helpers (api/internal/utils/date_utils.go): seconds until the
 * next 12:00:00 UTC, and the Expires value in IMF-fixdate form.
 *
 * The input instant is (sec, nanos): whole seconds since the epoch plus a nanosecond
 * fraction.  A time.Time's location plays no part: both helpers convert to UTC first.
 */
module DateUtils {
  import opened Wrappers
  import opened Civil
  import opened HttpDate
  import opened Decimal

  const NanosPerSecond := 1_000_000_000
  /** 12:00:00 as a second of the day. */
  const Noon := 43200

  /** The first 12:00:00 UTC strictly after the instant (sec, nanos); at noon exactly, the next day's. */
  function NextNoonUtc(sec: int, nanos: int): (target: int)
    requires 0 <= nanos < NanosPerSecond
    ensures SecondOfDay(target) == Noon
    ensures sec < target <= sec + SecondsPerDay
  {
    var day := DaysFromCivil(UtcDate(sec));
    InstantDecomposes(sec);
    SecondOfDayShift(Noon, day);
    SecondOfDayShift(Noon, day + 1);
    var today := day * SecondsPerDay + Noon;
    if sec >= today then today + SecondsPerDay else today
  }

  /** SecondsUntil12: whole seconds, truncated, until the next 12:00:00 UTC. */
  method SecondsUntil12(sec: int, nanos: int) returns (r: int)
    requires 0 <= nanos < NanosPerSecond
    ensures r == ((NextNoonUtc(sec, nanos) - sec) * NanosPerSecond - nanos) / NanosPerSecond
    ensures 0 <= r <= SecondsPerDay
    ensures r == SecondsPerDay <==> SecondOfDay(sec) == Noon && nanos == 0
    ensures nanos == 0 ==> 0 < r && SecondOfDay(sec + r) == Noon
    ensures nanos > 0 ==> r < SecondsPerDay && SecondOfDay(sec + r + 1) == Noon
  {
    var target := InstantAt(UtcDate(sec), 12, 0, 0);
    var after := sec > target || (sec == target && nanos > 0);
    var equal := sec == target && nanos == 0;
    if after || equal {
      target := target + SecondsPerDay;
    }
    // A positive time.Duration in nanoseconds; int(d.Seconds()) truncates it to whole seconds.
    var d := (target - sec) * NanosPerSecond - nanos;
    r := d / NanosPerSecond;
    InstantDecomposes(sec);
    assert r == target - sec - (if nanos > 0 then 1 else 0);
  }

  /** GetGmtStringForCache: the instant as an IMF-fixdate, which reads back as the same instant. */
  function GetGmtStringForCache(t: int): (r: string)
    ensures 0 <= UtcDate(t).year <= 9999 ==> |r| == 29 && ParseGmt(r) == Some(t)
  {
    if 0 <= UtcDate(t).year <= 9999 then
      FormatGmtRoundTrip(t);
      FormatGmt(t)
    else
      FormatGmt(t)
  }

  /**
   * GetGmtStringForCacheFromParts: 11:57:extraSeconds UTC on the given calendar date.
   * As with Go's time.Date, seconds outside 0..59 carry into the neighbouring minutes.
   */
  function GetGmtStringForCacheFromParts(date: Date, extraSeconds: int): (r: string)
    requires ValidDate(date)
    ensures 0 <= extraSeconds < 60 && 0 <= date.year <= 9999 ==>
              |r| == 29 && ParseGmt(r) == Some(InstantAt(date, 11, 57, extraSeconds))
              && r[..3] == DayNames[Weekday(DaysFromCivil(date))]
              && r[8..11] == MonthNames[date.month - 1]
  {
    var t := InstantAt(date, 11, 57, extraSeconds);
    if 0 <= extraSeconds < 60 && 0 <= date.year <= 9999 then
      FromPartsFields(date, extraSeconds);
      GetGmtStringForCache(t)
    else
      GetGmtStringForCache(t)
  }

  lemma FromPartsFields(date: Date, extraSeconds: int)
    requires ValidDate(date) && 0 <= extraSeconds < 60 && 0 <= date.year <= 9999
    ensures var r := GetGmtStringForCache(InstantAt(date, 11, 57, extraSeconds));
      && ParseGmt(r) == Some(InstantAt(date, 11, 57, extraSeconds))
      && r[..3] == DayNames[Weekday(DaysFromCivil(date))]
      && r[8..11] == MonthNames[date.month - 1]
  {
    var t := InstantAt(date, 11, 57, extraSeconds);
    InstantAtFields(date, 11, 57, extraSeconds);
    InstantDecomposes(t);
    FormatGmtRoundTrip(t);
    FormatGmtNames(t);
  }

  /** The Expires text field by field: the date, then 11:57 and the extra seconds. */
  lemma FromPartsText(date: Date, s: nat)
    requires ValidDate(date) && 0 <= date.year && s < 60
    ensures GetGmtStringForCacheFromParts(date, s)
            == ImfFixdate(DayNames[Weekday(DaysFromCivil(date))], ZeroPad(date.day, 2), MonthNames[date.month - 1],
                          ZeroPad(date.year, 4), ZeroPad(11, 2), ZeroPad(57, 2), ZeroPad(s, 2))
  {
    var t := InstantAt(date, 11, 57, s);
    assert GetGmtStringForCacheFromParts(date, s) == FormatGmt(t);
    InstantAtFields(date, 11, 57, s);
    assert t / SecondsPerDay == DaysFromCivil(date) by {
      InstantDecomposes(t);
    }
    FormatGmtAt(t, date, 11, 57, s);
  }

  /** The digit strings the three examples below need. */
  lemma ExampleDigits()
    ensures ZeroPad(11, 2) == "11" && ZeroPad(57, 2) == "57" && FormatInt(2025, 4) == "2025"
    ensures ZeroPad(29, 2) == "29" && ZeroPad(22, 2) == "22"
    ensures ZeroPad(0, 2) == "00" && ZeroPad(25, 2) == "25" && ZeroPad(50, 2) == "50"
  {
  }

  /** The day numbers and weekdays of the three example dates. */
  lemma ExampleDays()
    ensures DaysFromCivil(Date(2025, 3, 29)) == 20176 && Weekday(20176) == 6
    ensures DaysFromCivil(Date(2025, 2, 22)) == 20141 && Weekday(20141) == 6
    ensures DaysFromCivil(Date(2025, 5, 29)) == 20237 && Weekday(20237) == 4
  {
    assert DaysBeforeYear(2025) == 20089;
  }

  lemma MarchText()
    ensures ImfFixdate("Sat", "29", "Mar", "2025", "11", "57", "00") == "Sat, 29 Mar 2025 11:57:00 GMT"
  {
  }

  lemma FebruaryText()
    ensures ImfFixdate("Sat", "22", "Feb", "2025", "11", "57", "25") == "Sat, 22 Feb 2025 11:57:25 GMT"
  {
  }

  lemma MayText()
    ensures ImfFixdate("Thu", "29", "May", "2025", "11", "57", "50") == "Thu, 29 May 2025 11:57:50 GMT"
  {
  }

  /** 2025-03-29 (day 20176, a Saturday), no extra seconds. */
  lemma FromPartsMarch()
    ensures GetGmtStringForCacheFromParts(Date(2025, 3, 29), 0) == "Sat, 29 Mar 2025 11:57:00 GMT"
  {
    var d := Date(2025, 3, 29);
    var text := ImfFixdate(DayNames[Weekday(DaysFromCivil(d))], ZeroPad(d.day, 2), MonthNames[d.month - 1],
                           ZeroPad(d.year, 4), ZeroPad(11, 2), ZeroPad(57, 2), ZeroPad(0, 2));
    assert GetGmtStringForCacheFromParts(d, 0) == text by {
      FromPartsText(d, 0);
    }
    assert text == "Sat, 29 Mar 2025 11:57:00 GMT" by {
      ExampleDays();
      ExampleDigits();
      MarchText();
    }
  }


  /** 2025-02-22 (day 20141, a Saturday), 25 extra seconds. */
  lemma FromPartsFebruary()
    ensures GetGmtStringForCacheFromParts(Date(2025, 2, 22), 25) == "Sat, 22 Feb 2025 11:57:25 GMT"
  {
    var d := Date(2025, 2, 22);
    var text := ImfFixdate(DayNames[Weekday(DaysFromCivil(d))], ZeroPad(d.day, 2), MonthNames[d.month - 1],
                           ZeroPad(d.year, 4), ZeroPad(11, 2), ZeroPad(57, 2), ZeroPad(25, 2));
    assert GetGmtStringForCacheFromParts(d, 25) == text by {
      FromPartsText(d, 25);
    }
    assert text == "Sat, 22 Feb 2025 11:57:25 GMT" by {
      ExampleDays();
      ExampleDigits();
      FebruaryText();
    }
  }


  /** 2025-05-29 (day 20237, a Thursday), 50 extra seconds. */
  lemma FromPartsMay()
    ensures GetGmtStringForCacheFromParts(Date(2025, 5, 29), 50) == "Thu, 29 May 2025 11:57:50 GMT"
  {
    var d := Date(2025, 5, 29);
    var text := ImfFixdate(DayNames[Weekday(DaysFromCivil(d))], ZeroPad(d.day, 2), MonthNames[d.month - 1],
                           ZeroPad(d.year, 4), ZeroPad(11, 2), ZeroPad(57, 2), ZeroPad(50, 2));
    assert GetGmtStringForCacheFromParts(d, 50) == text by {
      FromPartsText(d, 50);
    }
    assert text == "Thu, 29 May 2025 11:57:50 GMT" by {
      ExampleDays();
      ExampleDigits();
      MayText();
    }
  }


  lemma OctoberDay()
    ensures DaysFromCivil(Date(2023, 10, 27)) == 19657 && Weekday(19657) == 5
    ensures ZeroPad(27, 2) == "27" && ZeroPad(2023, 4) == "2023"
    ensures ZeroPad(11, 2) == "11" && ZeroPad(57, 2) == "57" && ZeroPad(0, 2) == "00"
  {
    assert DaysBeforeYear(2023) == 19358;
  }

  lemma OctoberText()
    ensures ImfFixdate("Fri", "27", "Oct", "2023", "11", "57", "00") == "Fri, 27 Oct 2023 11:57:00 GMT"
  {
  }

  /** 2023-10-27 (day 19657, a Friday), no extra seconds: the Expires value of the handler's example date. */
  lemma FromPartsOctober()
    ensures GetGmtStringForCacheFromParts(Date(2023, 10, 27), 0) == "Fri, 27 Oct 2023 11:57:00 GMT"
  {
    var d := Date(2023, 10, 27);
    var text := ImfFixdate(DayNames[Weekday(DaysFromCivil(d))], ZeroPad(d.day, 2), MonthNames[d.month - 1],
                           ZeroPad(d.year, 4), ZeroPad(11, 2), ZeroPad(57, 2), ZeroPad(0, 2));
    assert GetGmtStringForCacheFromParts(d, 0) == text by {
      FromPartsText(d, 0);
    }
    assert text == "Fri, 27 Oct 2023 11:57:00 GMT" by {
      OctoberDay();
      OctoberText();
    }
  }
}

/**
 * The Java service's time helpers (api/src/main/java/fi/ehin/utils/DateUtils.java).
 * Java's long division truncates toward zero, which is written out here.
 */
module JavaDateUtils {
  import opened Wrappers
  import opened Civil
  import opened HttpDate
  import opened Decimal
  import DateUtils

  /** Java's integer division: the quotient rounded toward zero. */
  function TruncDiv(a: int, b: int): (q: int)
    requires b > 0
    ensures a >= 0 ==> q == a / b
    ensures a < 0 ==> q == -((-a) / b)
  {
    if a >= 0 then a / b else -((-a) / b)
  }

  /**
   * secondsUntil12: seconds from the instant to 12:00:00 UTC of the same UTC day,
   * truncated toward zero; negative once noon has passed, with no next-day rollover.
   */
  function SecondsUntil12(sec: int, nanos: int): (r: int)
    requires 0 <= nanos < DateUtils.NanosPerSecond
    ensures -DateUtils.Noon < r <= DateUtils.Noon
    ensures nanos == 0 ==> r == DateUtils.Noon - SecondOfDay(sec)
    ensures SecondOfDay(sec) > DateUtils.Noon ==> r < 0
    ensures SecondOfDay(sec) < DateUtils.Noon ==> r >= 0
  {
    var nanoOfDay := SecondOfDay(sec) * DateUtils.NanosPerSecond + nanos;
    TruncDiv(DateUtils.Noon * DateUtils.NanosPerSecond - nanoOfDay, DateUtils.NanosPerSecond)
  }

  /** secondsUntil12Utc: the same after dropping the nanoseconds, so the gap is exact. */
  function SecondsUntil12Utc(sec: int, nanos: int): (r: int)
    requires 0 <= nanos < DateUtils.NanosPerSecond
    ensures r == DateUtils.Noon - SecondOfDay(sec)
  {
    SecondsUntil12(sec, 0)
  }

  /**
   * getGmtStringForCache(LocalDate, int): 11:57:seconds UTC on the date, formatted with
   * RFC_1123_DATE_TIME.  withSecond throws outside 0..59 and the four-digit year field
   * throws outside 0000..9999; both are None here.  For two-digit days the text is the
   * Go service's IMF-fixdate; for days 1..9 the day is not padded and the text is not one.
   */
  function GetGmtStringForCacheOn(date: Date, seconds: int): (r: Option<string>)
    requires ValidDate(date)
    ensures r.Some? <==> 0 <= seconds <= 59 && 0 <= date.year <= 9999
    ensures r.Some? && date.day >= 10 ==>
              r.value == DateUtils.GetGmtStringForCacheFromParts(date, seconds)
    ensures r.Some? && date.day < 10 ==>
              var go := DateUtils.GetGmtStringForCacheFromParts(date, seconds);
              |r.value| == 28 && ParseGmt(r.value).None? && r.value == go[..5] + go[6..]
  {
    if seconds < 0 || seconds > 59 then None
    else
      var r := JavaFormatRfc1123(date, 11, 57, seconds);
      if r.Some? then
        JavaFormatAgainstGo(date, seconds);
        r
      else r
  }

  /**
   * getGmtStringForCache(OffsetDateTime): keeps only the argument's local date (at its own
   * offset) and a random second in 0..58, drawn by nextInt(0, 59) and passed in here.
   */
  function GetGmtStringForCache(t: int, offset: int, randomSeconds: int): (r: Option<string>)
    requires 0 <= randomSeconds <= 58
    ensures var local := CivilFromDays((t + offset) / SecondsPerDay);
      && (r.Some? <==> 0 <= local.year <= 9999)
      && (r.Some? && local.day >= 10 ==> ParseGmt(r.value) == Some(InstantAt(local, 11, 57, randomSeconds)))
      && (r.Some? && local.day < 10 ==>
            var go := DateUtils.GetGmtStringForCacheFromParts(local, randomSeconds);
            |r.value| == 28 && ParseGmt(r.value).None? && r.value == go[..5] + go[6..])
  {
    var local := CivilFromDays((t + offset) / SecondsPerDay);
    var r := GetGmtStringForCacheOn(local, randomSeconds);
    if r.Some? && local.day >= 10 then
      assert r.value == DateUtils.GetGmtStringForCacheFromParts(local, randomSeconds);
      r
    else r
  }

  /** Only the local date counts: two instants on the same local day give the same text, whatever their clock times. */
  lemma SameLocalDaySameText(t1: int, offset1: int, t2: int, offset2: int, randomSeconds: int)
    requires 0 <= randomSeconds <= 58
    requires (t1 + offset1) / SecondsPerDay == (t2 + offset2) / SecondsPerDay
    ensures GetGmtStringForCache(t1, offset1, randomSeconds) == GetGmtStringForCache(t2, offset2, randomSeconds)
  {
  }

  /** The three dates of the service's own examples; their days have two digits, so the texts are the Go ones. */
  lemma GmtStringExamples()
    ensures GetGmtStringForCacheOn(Date(2025, 3, 29), 0) == Some("Sat, 29 Mar 2025 11:57:00 GMT")
    ensures GetGmtStringForCacheOn(Date(2025, 2, 22), 25) == Some("Sat, 22 Feb 2025 11:57:25 GMT")
    ensures GetGmtStringForCacheOn(Date(2025, 5, 29), 50) == Some("Thu, 29 May 2025 11:57:50 GMT")
  {
    DateUtils.FromPartsMarch();
    DateUtils.FromPartsFebruary();
    DateUtils.FromPartsMay();
  }

  lemma FifthText()
    ensures ImfFixdate("Wed", "5", "Mar", "2025", "11", "57", "00") == "Wed, 5 Mar 2025 11:57:00 GMT"
  {
  }

  /** A single-digit day is printed without padding: 28 characters, not an IMF-fixdate. */
  lemma GmtStringSingleDigitDay()
    ensures GetGmtStringForCacheOn(Date(2025, 3, 5), 0) == Some("Wed, 5 Mar 2025 11:57:00 GMT")
    ensures ParseGmt("Wed, 5 Mar 2025 11:57:00 GMT").None?
  {
    var d := Date(2025, 3, 5);
    assert DaysFromCivil(d) == 20152;
    assert Weekday(20152) == 3;
    assert NatToString(5) == "5";
    assert ZeroPad(2025, 4) == "2025" && ZeroPad(11, 2) == "11" && ZeroPad(57, 2) == "57" && ZeroPad(0, 2) == "00";
    FifthText();
    assert JavaFormatRfc1123(d, 11, 57, 0) == Some("Wed, 5 Mar 2025 11:57:00 GMT");
  }

  /**
   * Before 12:00 UTC both services count the same whole seconds to noon; from noon on,
   * the Go service counts to the next day's noon and the Java service goes negative.
   */
  lemma SecondsUntil12AgreesBeforeNoon(sec: int, nanos: int)
    requires 0 <= nanos < DateUtils.NanosPerSecond && SecondOfDay(sec) < DateUtils.Noon
    ensures SecondsUntil12(sec, nanos)
            == ((DateUtils.NextNoonUtc(sec, nanos) - sec) * DateUtils.NanosPerSecond - nanos) / DateUtils.NanosPerSecond
  {
    InstantDecomposes(sec);
    var gap := DateUtils.Noon - SecondOfDay(sec);
    assert DateUtils.NextNoonUtc(sec, nanos) - sec == gap;
    assert gap * DateUtils.NanosPerSecond - nanos > 0;
  }

  lemma JavaFormatAgainstGo(date: Date, seconds: int)
    requires ValidDate(date) && 0 <= seconds <= 59 && 0 <= date.year <= 9999
    ensures date.day >= 10 ==>
              JavaFormatRfc1123(date, 11, 57, seconds)
              == Some(DateUtils.GetGmtStringForCacheFromParts(date, seconds))
    ensures date.day < 10 ==>
              var go := DateUtils.GetGmtStringForCacheFromParts(date, seconds);
              |JavaFormatRfc1123(date, 11, 57, seconds).value| == 28
              && ParseGmt(JavaFormatRfc1123(date, 11, 57, seconds).value).None?
              && JavaFormatRfc1123(date, 11, 57, seconds).value == go[..5] + go[6..]
  {
    assert Pow10(4) == 10000 && Pow10(2) == 100;
    ZeroPadRoundTrip(date.year, 4);
    ZeroPadRoundTrip(seconds, 2);
    NatToStringLength(date.day, 2);
    var java := ImfFixdate(DayNames[Weekday(DaysFromCivil(date))], NatToString(date.day), MonthNames[date.month - 1],
                           ZeroPad(date.year, 4), ZeroPad(11, 2), ZeroPad(57, 2), ZeroPad(seconds, 2));
    assert JavaFormatRfc1123(date, 11, 57, seconds) == Some(java);
    if date.day >= 10 {
      assert NatToString(date.day) == ZeroPad(date.day, 2) by {
        assert NatToString(date.day) == NatToString(date.day / 10) + [DigitChar(date.day % 10)];
      }
      DateUtils.FromPartsText(date, seconds);
    } else {
      assert |NatToString(date.day)| == 1;
      assert |ZeroPad(11, 2)| == 2 && |ZeroPad(57, 2)| == 2 by {
        ZeroPadRoundTrip(11, 2);
        ZeroPadRoundTrip(57, 2);
      }
      assert |java| == 28;
      var c := DigitChar(date.day);
      assert NatToString(date.day) == [c];
      assert ZeroPad(date.day, 2) == ['0', c] by {
        assert Zeros(1) == ['0'];
      }
      DateUtils.FromPartsText(date, seconds);
      HttpDate.ImfFixdateUnpadded(DayNames[Weekday(DaysFromCivil(date))], c, MonthNames[date.month - 1],
                                  ZeroPad(date.year, 4), ZeroPad(11, 2), ZeroPad(57, 2), ZeroPad(seconds, 2));
    }
  }

}
