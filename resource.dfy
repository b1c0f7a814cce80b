/**
 * The Go PriceResource handlers: the cached price query for a date and the two
 * password-gated refresh endpoints.  An HTTP response is reduced to its status and, for
 * the price query, the Cache-Control and Expires headers beside the body.
 */
module GoPriceResource {
  import opened Wrappers
  import opened Decimal
  import opened Civil
  import opened Helsinki
  import opened Model
  import opened PriceStore
  import PricesService
  import GoPriceRepository
  import DateUtils
  import HttpDate

  const CacheVar := "public"
  const CacheLong := "public, max-age=604800, immutable"
  /** CACHE_VAR + ", max-age=60", built inline by the handler. */
  const CacheShort := CacheVar + ", max-age=60"

  datatype Response =
    | NotFound
    | BadRequest
    | InternalError
    | PriceList(entries: seq<PriceHistoryEntry>, cacheControl: string, expires: Option<string>)
    | UpdateResult(done: bool)

  // ---- The {date} path segment ----

  /**
   * time.Parse("2006-01-02", s): exactly four year digits, two month digits in 01..12 and
   * two day digits naming a day of that month, with nothing before or after.
   */
  function ParseDate(s: string): (r: Option<Date>)
    ensures r.Some? ==> ValidDate(r.value) && 0 <= r.value.year <= 9999
    ensures r.Some? ==> |s| == 10 && s[4] == '-' && s[7] == '-'
    ensures r.Some? ==> FormatDate(r.value) == s
  {
    if |s| == 10 && s[4] == '-' && s[7] == '-'
       && AllDigits(s[..4]) && AllDigits(s[5..7]) && AllDigits(s[8..])
    then
      YearDigitsBound(s[..4]);
      var d := Date(DigitsValue(s[..4]), DigitsValue(s[5..7]), DigitsValue(s[8..]));
      if ValidDate(d) then
        FormatDateSpells(s, d);
        Some(d)
      else None
    else None
  }

  /** The accepted text is the full-date form of the date its digits spell. */
  lemma FormatDateSpells(s: string, d: Date)
    requires |s| == 10 && s[4] == '-' && s[7] == '-'
    requires AllDigits(s[..4]) && AllDigits(s[5..7]) && AllDigits(s[8..])
    requires d == Date(DigitsValue(s[..4]), DigitsValue(s[5..7]), DigitsValue(s[8..])) && ValidDate(d)
    ensures FormatDate(d) == s
  {
    DigitsZeroPad(s[..4]);
    DigitsZeroPad(s[5..7]);
    DigitsZeroPad(s[8..]);
    assert s == s[..4] + "-" + s[5..7] + "-" + s[8..];
  }

  lemma YearDigitsBound(s: string)
    requires |s| == 4 && AllDigits(s)
    ensures DigitsValue(s) <= 9999
  {
    DigitsValueBound(s);
    assert Pow10(4) == 10000;
  }

  /** The full-date form of section 5.6 of RFC 3339: YYYY-MM-DD with zero padding. */
  function FormatDate(d: Date): string
    requires ValidDate(d) && 0 <= d.year
  {
    ZeroPad(d.year, 4) + "-" + ZeroPad(d.month, 2) + "-" + ZeroPad(d.day, 2)
  }

  /** Every date with a four-digit year is accepted in its full-date form, and read back unchanged. */
  lemma ParseDateRoundTrip(d: Date)
    requires ValidDate(d) && 0 <= d.year <= 9999
    ensures ParseDate(FormatDate(d)) == Some(d)
  {
    assert Pow10(4) == 10000 && Pow10(2) == 100;
    ZeroPadRoundTrip(d.year, 4);
    ZeroPadRoundTrip(d.month, 2);
    ZeroPadRoundTrip(d.day, 2);
    var s := FormatDate(d);
    assert s[..4] == ZeroPad(d.year, 4);
    assert s[5..7] == ZeroPad(d.month, 2);
    assert s[8..] == ZeroPad(d.day, 2);
  }

  // ---- The cache decision ----

  /** pricesUpdateTime: 11:57:00 UTC on the requested date, when the next day's prices are due. */
  function PublicationTime(date: Date): (t: int)
    requires ValidDate(date)
    ensures UtcDate(t) == date && SecondOfDay(t) == 11 * 3600 + 57 * 60
  {
    InstantAtFields(date, 11, 57, 0);
    InstantAt(date, 11, 57, 0)
  }

  /** The stored prices already reach past the requested date on the zone's calendar. */
  predicate Settled(zone: Zone, date: Date, prices: seq<PriceHistoryEntry>) {
    |prices| > 0 && IsAfter(LocalDate(zone, prices[|prices| - 1].deliveryStart), date)
  }

  datatype CacheHeaders = CacheHeaders(cacheControl: string, expires: Option<string>)

  /** Now().After(t) for the clock reading (now, nowNanos): whole seconds plus a nanosecond fraction. */
  predicate NowAfter(now: int, nowNanos: int, t: int) {
    now > t || (now == t && nowNanos > 0)
  }

  /**
   * The caching policy: immutable for a week once the prices reach past the date; until
   * 11:57 UTC on the date, cacheable until then; after it, for a minute at a time.
   */
  function CacheDirective(zone: Zone, date: Date, now: int, nowNanos: int, prices: seq<PriceHistoryEntry>): (h: CacheHeaders)
    requires ValidDate(date) && 0 <= nowNanos < DateUtils.NanosPerSecond
    ensures h.cacheControl == "public, max-age=604800, immutable" <==> Settled(zone, date, prices)
    ensures h.cacheControl == "public, max-age=60" <==>
              !Settled(zone, date, prices) && NowAfter(now, nowNanos, PublicationTime(date))
    ensures h.cacheControl == "public" <==>
              !Settled(zone, date, prices) && !NowAfter(now, nowNanos, PublicationTime(date))
    ensures h.expires.Some? <==> h.cacheControl == "public"
    ensures h.expires.Some? ==> h.expires.value != ""
    ensures h.expires.Some? && 0 <= date.year <= 9999 ==>
              |h.expires.value| == 29 && HttpDate.ParseGmt(h.expires.value) == Some(PublicationTime(date))
  {
    var pub := PublicationTime(date);
    var after := NowAfter(now, nowNanos, pub);
    if Settled(zone, date, prices) then CacheHeaders(CacheLong, None)
    else if after then CacheHeaders(CacheShort, None)
    else
      var e := DateUtils.GetGmtStringForCache(pub);
      assert e != "" by {
        assert |HttpDate.FormatGmt(pub)| >= 4;
      }
      CacheHeaders(CacheVar, Some(e))
  }

  /** The handler's test: the last price's local date, at local midnight, is after the requested date's midnight. */
  lemma SettledByMidnights(zone: Zone, date: Date, prices: seq<PriceHistoryEntry>)
    requires ValidDate(date) && |prices| > 0
    ensures LocalMidnight(zone, LocalDate(zone, prices[|prices| - 1].deliveryStart)) > LocalMidnight(zone, date)
            <==> Settled(zone, date, prices)
  {
    LocalMidnightOrder(zone, LocalDate(zone, prices[|prices| - 1].deliveryStart), date);
  }

  /** 23:00 on 2023-10-27 in Helsinki is still the 27th on the wall-clock calendar. */
  lemma LateOnTwentySeventh()
    ensures LocalDate(EuropeHelsinki, 1698436800) == Date(2023, 10, 27)
  {
    var t := 1698436800;
    AutumnChange2023();
    AtOrAfterMidnight(EuropeHelsinki, Date(2023, 10, 27), t);
    AtOrAfterMidnight(EuropeHelsinki, Date(2023, 10, 28), t);
    assert DaysFromCivil(Date(2023, 10, 28)) == DaysFromCivil(Date(2023, 10, 27)) + 1;
    DaysFromCivilOrder(LocalDate(EuropeHelsinki, t), Date(2023, 10, 27));
  }

  /** Midnight starting 2023-10-28 in Helsinki is on the 28th. */
  lemma MidnightOfTwentyEighth()
    ensures LocalDate(EuropeHelsinki, 1698440400) == Date(2023, 10, 28)
  {
    AutumnChange2023();
    LocalMidnightIsMidnight(EuropeHelsinki, Date(2023, 10, 28));
  }

  /**
   * The handler's three caching cases for 2023-10-27: a price starting at midnight of the
   * 28th settles the date; a last price at 23:00 on the 27th does not, and the answer
   * then turns on 11:57 UTC, which half a second past already counts as after.
   */
  lemma CacheExamples()
    ensures var date := Date(2023, 10, 27);
      var next := [PriceHistoryEntry(10.0, 1698440400, 1698444000)];
      var same := [PriceHistoryEntry(10.0, 1698436800, 1698440400)];
      && CacheDirective(EuropeHelsinki, date, 1698400800, 0, next) == CacheHeaders("public, max-age=604800, immutable", None)
      && CacheDirective(EuropeHelsinki, date, 1698400800, 0, same) == CacheHeaders("public", Some("Fri, 27 Oct 2023 11:57:00 GMT"))
      && CacheDirective(EuropeHelsinki, date, 1698407820, 0, same) == CacheHeaders("public", Some("Fri, 27 Oct 2023 11:57:00 GMT"))
      && CacheDirective(EuropeHelsinki, date, 1698407820, 500_000_000, same) == CacheHeaders("public, max-age=60", None)
      && CacheDirective(EuropeHelsinki, date, 1698408000, 0, same) == CacheHeaders("public, max-age=60", None)
  {
    LateOnTwentySeventh();
    MidnightOfTwentyEighth();
    assert DaysFromCivil(Date(2023, 10, 27)) == 19657;
    assert PublicationTime(Date(2023, 10, 27)) == 1698407820;
    assert DateUtils.GetGmtStringForCache(PublicationTime(Date(2023, 10, 27))) == "Fri, 27 Oct 2023 11:57:00 GMT" by {
      DateUtils.FromPartsOctober();
    }
  }

  lemma ParseDateRejectsDayFirst()
    ensures ParseDate("27-10-2023").None?
  {
    assert "27-10-2023"[4] == '0';
  }

  /** The header logic of GetPastPrices, with its reassigned cacheString and expiresValue. */
  method DecideCache(zone: Zone, date: Date, now: int, nowNanos: int, prices: seq<PriceHistoryEntry>)
    returns (cacheString: string, expiresValue: string)
    requires ValidDate(date) && 0 <= nowNanos < DateUtils.NanosPerSecond
    ensures CacheHeaders(cacheString, if expiresValue == "" then None else Some(expiresValue))
            == CacheDirective(zone, date, now, nowNanos, prices)
  {
    cacheString := CacheLong;
    expiresValue := "";
    var dateWithTime := LocalMidnight(zone, date);
    if |prices| > 0 {
      var lastPrice := prices[|prices| - 1];
      var lastPriceDate := LocalDate(zone, lastPrice.deliveryStart);
      var lastPriceDateOnly := LocalMidnight(zone, lastPriceDate);
      SettledByMidnights(zone, date, prices);
      if !(lastPriceDateOnly > dateWithTime) {
        var pricesUpdateTime := InstantAt(date, 11, 57, 0);
        if NowAfter(now, nowNanos, pricesUpdateTime) {
          cacheString := CacheVar + ", max-age=60";
        } else {
          expiresValue := DateUtils.GetGmtStringForCache(pricesUpdateTime);
          cacheString := CacheVar;
        }
      }
    } else {
      var pricesUpdateTime := InstantAt(date, 11, 57, 0);
      if NowAfter(now, nowNanos, pricesUpdateTime) {
        cacheString := CacheVar + ", max-age=60";
      } else {
        expiresValue := DateUtils.GetGmtStringForCache(pricesUpdateTime);
        cacheString := CacheVar;
      }
    }
  }

  // ---- The query window ----

  /** [00:00 of the day before, 00:00 three days after), in the zone's wall-clock time. */
  function QueryWindow(zone: Zone, date: Date): (w: (int, int))
    requires ValidDate(date)
    ensures w.0 < w.1
  {
    var from := AddDays(date, -1);
    var to := AddDays(date, 3);
    LocalMidnightMonotone(zone, from, to);
    (LocalMidnight(zone, from), LocalMidnight(zone, to))
  }

  /** The window holds exactly the instants whose local date is the day before the date, the date, or the two days after. */
  lemma QueryWindowDays(zone: Zone, date: Date, t: int)
    requires ValidDate(date)
    ensures QueryWindow(zone, date).0 <= t < QueryWindow(zone, date).1
            <==> DaysFromCivil(date) - 1 <= DaysFromCivil(LocalDate(zone, t)) <= DaysFromCivil(date) + 2
  {
    AtOrAfterMidnight(zone, AddDays(date, -1), t);
    AtOrAfterMidnight(zone, AddDays(date, 3), t);
  }

  // ---- The handlers ----

  /**
   * GetPastPrices.  repositoryPresent is false when the handler was wired without a
   * repository; zoneLoads is false when the zone database cannot supply Europe/Helsinki,
   * in which case UTC is used.  (now, nowNanos) is dateService.Now(), to the nanosecond.
   */
  method GetPastPrices(table: PriceTable, dateStr: string, repositoryPresent: bool, zoneLoads: bool,
                       now: int, nowNanos: int, fault: GoPriceRepository.ReadFault) returns (resp: Response)
    requires table.Valid() && 0 <= nowNanos < DateUtils.NanosPerSecond
    ensures ParseDate(dateStr).None? ==> resp == BadRequest
    ensures ParseDate(dateStr).Some? && !repositoryPresent ==> resp == InternalError
    ensures ParseDate(dateStr).Some? && repositoryPresent ==>
              var date := ParseDate(dateStr).value;
              var zone := if zoneLoads then EuropeHelsinki else Utc;
              var rows := table.Select(GoPriceRepository.InWindow(QueryWindow(zone, date).0, QueryWindow(zone, date).1));
              if fault.NoFault? || (fault.ScanFailsAt? && fault.row >= |rows|) then
                var h := CacheDirective(zone, date, now, nowNanos, rows);
                resp == PriceList(rows, h.cacheControl, h.expires)
              else resp == InternalError
  {
    var parsed := ParseDate(dateStr);
    if parsed.None? {
      return BadRequest;
    }
    var date := parsed.value;
    if !repositoryPresent {
      return InternalError;
    }
    var helsinki := if zoneLoads then EuropeHelsinki else Utc;
    var window := QueryWindow(helsinki, date);
    var prices := GoPriceRepository.GetPrices(table, window.0, window.1, fault);
    if prices.Err? {
      return InternalError;
    }
    var cacheString, expiresValue := DecideCache(helsinki, date, now, nowNanos, prices.value);
    return PriceList(prices.value, cacheString, if expiresValue != "" then Some(expiresValue) else None);
  }

  /** The shared-secret gate: an unset password or a wrong one answers 404. */
  predicate Authorized(configured: string, p: string) {
    configured != "" && configured == p
  }

  /**
   * The part both refresh handlers share: 500 on a fetch error, done=false for a rejected
   * payload, otherwise insert the FI rows and answer done=true unless the insert failed.
   */
  method StoreFetched(table: PriceTable, fetched: GoFetch, execFault: Option<string>) returns (resp: Response)
    requires table.Valid()
    modifies table
    ensures table.Valid()
    ensures fetched.Err? ==> resp == InternalError && table.rows == old(table.rows)
    ensures fetched == Ok(None) ==> resp == UpdateResult(false) && table.rows == old(table.rows)
    ensures fetched.Ok? && fetched.value.Some? ==>
              var entries := PricesService.FiEntries(fetched.value.value.multiAreaEntries);
              if |entries| > 0 && execFault.Some? then resp == InternalError && table.rows == old(table.rows)
              else resp == UpdateResult(true) && table.rows == InsertAll(old(table.rows), entries)
  {
    if fetched.Err? {
      return InternalError;
    }
    var prices := fetched.value;
    if prices.None? {
      return UpdateResult(false);
    }
    var entries := PricesService.ToPriceHistoryEntries(prices);
    var _, err := GoPriceRepository.InsertPrices(table, entries.value, execFault);
    if err.Some? {
      return InternalError;
    }
    return UpdateResult(true);
  }

  /** UpdatePrices: fetch and store tomorrow's prices, tomorrow being the day after `today`. */
  method UpdatePrices(table: PriceTable, configured: string, p: string, feed: FeedRequest -> GoFetch,
                      today: Date, execFault: Option<string>) returns (resp: Response)
    requires table.Valid() && ValidDate(today)
    modifies table
    ensures table.Valid()
    ensures !Authorized(configured, p) ==> resp == NotFound && table.rows == old(table.rows)
    ensures Authorized(configured, p) ==>
              var fetched := PricesService.Validated(feed(PricesService.DayAheadRequest(AddDays(today, 1))));
              (fetched.Err? ==> resp == InternalError && table.rows == old(table.rows))
              && (fetched == Ok(None) ==> resp == UpdateResult(false) && table.rows == old(table.rows))
              && (fetched.Ok? && fetched.value.Some? ==>
                    var entries := PricesService.FiEntries(fetched.value.value.multiAreaEntries);
                    if |entries| > 0 && execFault.Some? then resp == InternalError && table.rows == old(table.rows)
                    else resp == UpdateResult(true) && table.rows == InsertAll(old(table.rows), entries))
  {
    if configured == "" || configured != p {
      return NotFound;
    }
    var prices := PricesService.GetTomorrowsPrices(feed, today);
    resp := StoreFetched(table, prices, execFault);
  }

  /** UpdatePricesForDate: the same for the date in the path, which must parse first. */
  method UpdatePricesForDate(table: PriceTable, configured: string, p: string, dateStr: string,
                             feed: FeedRequest -> GoFetch, execFault: Option<string>) returns (resp: Response)
    requires table.Valid()
    modifies table
    ensures table.Valid()
    ensures !Authorized(configured, p) ==> resp == NotFound && table.rows == old(table.rows)
    ensures Authorized(configured, p) && ParseDate(dateStr).None? ==> resp == BadRequest && table.rows == old(table.rows)
    ensures Authorized(configured, p) && ParseDate(dateStr).Some? ==>
              var fetched := PricesService.Validated(feed(PricesService.DayAheadRequest(ParseDate(dateStr).value)));
              (fetched.Err? ==> resp == InternalError && table.rows == old(table.rows))
              && (fetched == Ok(None) ==> resp == UpdateResult(false) && table.rows == old(table.rows))
              && (fetched.Ok? && fetched.value.Some? ==>
                    var entries := PricesService.FiEntries(fetched.value.value.multiAreaEntries);
                    if |entries| > 0 && execFault.Some? then resp == InternalError && table.rows == old(table.rows)
                    else resp == UpdateResult(true) && table.rows == InsertAll(old(table.rows), entries))
  {
    if configured == "" || configured != p {
      return NotFound;
    }
    var date := ParseDate(dateStr);
    if date.None? {
      return BadRequest;
    }
    var prices := PricesService.GetPrices(feed, date.value);
    resp := StoreFetched(table, prices, execFault);
  }
}

/**
 * The Java PriceResource.  Exceptions are Err values; the framework answers them with
 * a server error.  The date path parameter arrives already converted to a date.
 */
module JavaPriceResource {
  import opened Wrappers
  import opened Decimal
  import opened Civil
  import opened Model
  import opened PriceStore
  import Helsinki
  import HttpDate
  import GoPriceResource
  import JavaPricesService
  import JavaPriceRepository
  import JavaDateUtils
  import DateUtils

  type Response = GoPriceResource.Response
  type CacheHeaders = GoPriceResource.CacheHeaders

  const CacheVar := "public"
  /** CACHE_LONG, with the week written as 60 * 60 * 168 seconds. */
  const CacheLong := "public, max-age=" + NatToString(60 * 60 * 168) + ", immutable"

  /** Both services send the same one-week directive. */
  lemma CacheLongAgreesWithGo()
    ensures CacheLong == GoPriceResource.CacheLong
  {
    assert NatToString(6) == "6";
    assert NatToString(60) == "60";
    assert NatToString(604) == "604";
    assert NatToString(6048) == "6048";
    assert NatToString(60480) == "60480";
    assert NatToString(604800) == "604800";
  }

  /** date.atTime(00:00 at the given offset), as an instant. */
  function MidnightAtOffset(date: Date, offset: int): int
    requires ValidDate(date)
  {
    DaysFromCivil(date) * SecondsPerDay - offset
  }

  /** minusDays(1) and plusDays(3) on a fixed-offset date-time move by whole days. */
  function QueryWindow(date: Date, nowOffset: int): (w: (int, int))
    requires ValidDate(date)
    ensures w.1 - w.0 == 4 * SecondsPerDay
  {
    var dateWithTime := MidnightAtOffset(date, nowOffset);
    (dateWithTime - SecondsPerDay, dateWithTime + 3 * SecondsPerDay)
  }

  /**
   * The window is built with the offset in force now, not on the requested dates: each
   * bound equals the Go service's bound exactly when the current offset is the one in
   * force at that bound's midnight.
   */
  lemma QueryWindowAgainstGo(date: Date, nowOffset: int)
    requires ValidDate(date)
    ensures var go := GoPriceResource.QueryWindow(Helsinki.EuropeHelsinki, date);
      && (QueryWindow(date, nowOffset).0 == go.0 <==> nowOffset == Helsinki.MidnightOffset(Helsinki.EuropeHelsinki, AddDays(date, -1)))
      && (QueryWindow(date, nowOffset).1 == go.1 <==> nowOffset == Helsinki.MidnightOffset(Helsinki.EuropeHelsinki, AddDays(date, 3)))
  {
    assert DaysFromCivil(AddDays(date, -1)) == DaysFromCivil(date) - 1;
    assert DaysFromCivil(AddDays(date, 3)) == DaysFromCivil(date) + 3;
  }

  /** OffsetDateTime.toLocalDate: the calendar date at the value's own offset. */
  function LocalDateAt(t: int, offset: int): (d: Date)
    ensures ValidDate(d)
  {
    CivilFromDays((t + offset) / SecondsPerDay)
  }

  /**
   * The header decision once the newest price date is known.  None stands for the
   * exception the formatter throws for a year outside 0000..9999.
   */
  function CacheDirective(date: Date, now: int, nowNanos: int, newest: Date, randomSeconds: int): (r: Option<CacheHeaders>)
    requires ValidDate(date) && 0 <= nowNanos < DateUtils.NanosPerSecond && 0 <= randomSeconds <= 58
    ensures IsAfter(newest, date) ==> r == Some(GoPriceResource.CacheHeaders(CacheLong, None))
    ensures !IsAfter(newest, date) && GoPriceResource.NowAfter(now, nowNanos, GoPriceResource.PublicationTime(date)) ==>
              r == Some(GoPriceResource.CacheHeaders(GoPriceResource.CacheShort, None))
    ensures !IsAfter(newest, date) && !GoPriceResource.NowAfter(now, nowNanos, GoPriceResource.PublicationTime(date)) ==>
              (r.Some? <==> 0 <= date.year <= 9999)
              && (r.Some? ==> r.value.cacheControl == "public" && r.value.expires.Some?)
    ensures !IsAfter(newest, date) && !GoPriceResource.NowAfter(now, nowNanos, GoPriceResource.PublicationTime(date))
            && r.Some? && date.day >= 10 ==>
              HttpDate.ParseGmt(r.value.expires.value) == Some(InstantAt(date, 11, 57, randomSeconds))
    ensures !IsAfter(newest, date) && !GoPriceResource.NowAfter(now, nowNanos, GoPriceResource.PublicationTime(date))
            && r.Some? && date.day < 10 ==>
              var go := DateUtils.GetGmtStringForCacheFromParts(date, randomSeconds);
              r.value.expires.value == go[..5] + go[6..]
  {
    var pub := GoPriceResource.PublicationTime(date);
    if IsAfter(newest, date) then Some(GoPriceResource.CacheHeaders(CacheLong, None))
    else if GoPriceResource.NowAfter(now, nowNanos, pub) then
      Some(GoPriceResource.CacheHeaders(CacheVar + ", max-age=60", None))
    else
      var e := JavaDateUtils.GetGmtStringForCache(pub, 0, randomSeconds);
      ExpiresAt(date, randomSeconds);
      if e.None? then None
      else Some(GoPriceResource.CacheHeaders(CacheVar, e))
  }

  /**
   * Where the services part ways: the first price of 2023-10-28 starts at Helsinki
   * midnight, 21:00 UTC on the 27th.  Read back at offset zero its date is the 27th, so
   * the Java service still answers "public" with an Expires value, while the Go service,
   * which reads it on the Helsinki calendar, already answers with the one-week directive.
   */
  lemma NewestReadAtUtc(randomSeconds: int)
    requires 0 <= randomSeconds <= 58
    ensures var date := Date(2023, 10, 27);
      var newest := LocalDateAt(1698440400, 0);
      && newest == date
      && CacheDirective(date, 1698400800, 0, newest, randomSeconds).Some?
      && CacheDirective(date, 1698400800, 0, newest, randomSeconds).value.cacheControl == "public"
      && GoPriceResource.CacheDirective(Helsinki.EuropeHelsinki, date, 1698400800, 0,
                                        [PriceHistoryEntry(10.0, 1698440400, 1698444000)]).cacheControl
         == "public, max-age=604800, immutable"
  {
    var date := Date(2023, 10, 27);
    assert DaysFromCivil(date) == 19657;
    assert (1698440400 + 0) / SecondsPerDay == 19657;
    CivilRoundTrip(date);
    assert GoPriceResource.PublicationTime(date) == 1698407820;
    GoPriceResource.CacheExamples();
  }

  /** The Expires value: 11:57 plus the random seconds on the requested date itself. */
  lemma ExpiresAt(date: Date, randomSeconds: int)
    requires ValidDate(date) && 0 <= randomSeconds <= 58
    ensures var pub := GoPriceResource.PublicationTime(date);
      var e := JavaDateUtils.GetGmtStringForCache(pub, 0, randomSeconds);
      && (e.Some? <==> 0 <= date.year <= 9999)
      && (e.Some? && date.day >= 10 ==> HttpDate.ParseGmt(e.value) == Some(InstantAt(date, 11, 57, randomSeconds)))
      && (e.Some? && date.day < 10 ==>
            var go := DateUtils.GetGmtStringForCacheFromParts(date, randomSeconds);
            e.value == go[..5] + go[6..])
  {
    PublicationDate(date);
  }

  lemma PublicationDate(date: Date)
    requires ValidDate(date)
    ensures CivilFromDays((GoPriceResource.PublicationTime(date) + 0) / SecondsPerDay) == date
  {
    var pub := GoPriceResource.PublicationTime(date);
    assert pub == DaysFromCivil(date) * SecondsPerDay + 43020;
    assert (pub + 0) / SecondsPerDay == DaysFromCivil(date);
    CivilRoundTrip(date);
  }


  /**
   * getPastPrices.  nowOffset is Helsinki's offset at the local date-time the JVM's default-zone
   * clock shows now (equal to Helsinki's current offset when the JVM runs on Helsinki time), readOffset the
   * offset the JDBC driver gives the stored delivery_start, and randomSeconds the draw
   * for the Expires value.  (now, nowNanos) is dateService.now(), to the nanosecond.
   */
  method GetPastPrices(table: PriceTable, date: Date, nowOffset: int, now: int, nowNanos: int, readOffset: int,
                       randomSeconds: int, fault: Option<string>) returns (r: Result<Response, string>)
    requires table.Valid() && ValidDate(date) && 0 <= nowNanos < DateUtils.NanosPerSecond && 0 <= randomSeconds <= 58
    ensures fault.Some? ==> r.Err?
    ensures fault.None? ==>
              var rows := table.Select(JavaPriceRepository.InRange(QueryWindow(date, nowOffset).0, QueryWindow(date, nowOffset).1));
              (|rows| == 0 ==> r.Err?)
              && (|rows| > 0 ==>
                    var h := CacheDirective(date, now, nowNanos, LocalDateAt(rows[|rows| - 1].deliveryStart, readOffset), randomSeconds);
                    (h.None? ==> r.Err?)
                    && (h.Some? ==> r == Ok(GoPriceResource.PriceList(rows, h.value.cacheControl, h.value.expires))))
  {
    var window := QueryWindow(date, nowOffset);
    var prices := JavaPriceRepository.GetPrices(table, window.0, window.1, fault);
    if prices.Err? {
      return Err(prices.error);
    }
    var list := prices.value;
    if |list| == 0 {
      return Err("NoSuchElementException");
    }
    var cacheString := CacheLong;
    var expiresValue: Option<string> := None;
    var newestPriceDate := LocalDateAt(list[|list| - 1].deliveryStart, readOffset);
    if !IsAfter(newestPriceDate, date) {
      var pricesUpdateTime := InstantAt(date, 11, 57, 0);
      if GoPriceResource.NowAfter(now, nowNanos, pricesUpdateTime) {
        cacheString := CacheVar + ", max-age=60";
      } else {
        var e := JavaDateUtils.GetGmtStringForCache(pricesUpdateTime, 0, randomSeconds);
        if e.None? {
          return Err("DateTimeException");
        }
        expiresValue := e;
        cacheString := CacheVar;
      }
    }
    return Ok(GoPriceResource.PriceList(list, cacheString, expiresValue));
  }

  /** `updatePricesPassword.equals(p)`: a missing p never matches; an empty configured password does match an empty p. */
  predicate Authorized(configured: string, password: Option<string>) {
    password == Some(configured)
  }

  /** insertPrices(prices.multiAreaEntries()) followed by done=true. */
  method StoreAccepted(table: PriceTable, prices: JavaResponse, execFault: Option<string>) returns (r: Result<Response, string>)
    requires table.Valid()
    modifies table
    ensures table.Valid()
    ensures r.Err? ==> table.rows == old(table.rows)
    ensures var es := prices.multiAreaEntries;
      r.Ok? <==> es.Some? && |es.value| > 0 && JavaPriceRepository.AllPriced(es.value) && execFault.None?
    ensures r.Ok? ==> r.value == GoPriceResource.UpdateResult(true)
                      && table.rows == InsertAll(old(table.rows), JavaPriceRepository.Rows(prices.multiAreaEntries.value))
  {
    var inserted := JavaPriceRepository.InsertPrices(table, prices.multiAreaEntries, execFault);
    if inserted.Err? {
      return Err(inserted.error);
    }
    return Ok(GoPriceResource.UpdateResult(true));
  }

  /** updatePrices: tomorrow's prices; a rejected payload answers done=false. */
  method UpdatePrices(table: PriceTable, configured: string, password: Option<string>,
                      feed: FeedRequest -> JavaFetch, today: Date, execFault: Option<string>)
    returns (r: Result<Response, string>)
    requires table.Valid() && ValidDate(today)
    modifies table
    ensures table.Valid()
    ensures !Authorized(configured, password) ==> r == Ok(GoPriceResource.NotFound) && table.rows == old(table.rows)
    ensures Authorized(configured, password) ==>
              var fetched := JavaPricesService.GetTomorrowsPrices(feed, today);
              (fetched.Err? ==> r.Err? && table.rows == old(table.rows))
              && (fetched == Ok(None) ==> r == Ok(GoPriceResource.UpdateResult(false)) && table.rows == old(table.rows))
              && (fetched.Ok? && fetched.value.Some? ==>
                    var es := fetched.value.value.multiAreaEntries;
                    if es.Some? && |es.value| > 0 && JavaPriceRepository.AllPriced(es.value) && execFault.None? then
                      r == Ok(GoPriceResource.UpdateResult(true))
                      && table.rows == InsertAll(old(table.rows), JavaPriceRepository.Rows(es.value))
                    else r.Err? && table.rows == old(table.rows))
  {
    if !(password == Some(configured)) {
      return Ok(GoPriceResource.NotFound);
    }
    var prices := JavaPricesService.GetTomorrowsPrices(feed, today);
    if prices.Err? {
      return Err(prices.error);
    }
    if prices.value.None? {
      return Ok(GoPriceResource.UpdateResult(false));
    }
    r := StoreAccepted(table, prices.value.value, execFault);
  }

  /** updatePricesForDate: no null check, so a rejected payload ends in a NullPointerException. */
  method UpdatePricesForDate(table: PriceTable, configured: string, password: Option<string>, date: Date,
                             feed: FeedRequest -> JavaFetch, execFault: Option<string>)
    returns (r: Result<Response, string>)
    requires table.Valid() && ValidDate(date)
    modifies table
    ensures table.Valid()
    ensures !Authorized(configured, password) ==> r == Ok(GoPriceResource.NotFound) && table.rows == old(table.rows)
    ensures Authorized(configured, password) ==>
              var fetched := JavaPricesService.GetPrices(feed, date);
              (fetched.Err? ==> r.Err? && table.rows == old(table.rows))
              && (fetched == Ok(None) ==> r.Err? && table.rows == old(table.rows))
              && (fetched.Ok? && fetched.value.Some? ==>
                    var es := fetched.value.value.multiAreaEntries;
                    if es.Some? && |es.value| > 0 && JavaPriceRepository.AllPriced(es.value) && execFault.None? then
                      r == Ok(GoPriceResource.UpdateResult(true))
                      && table.rows == InsertAll(old(table.rows), JavaPriceRepository.Rows(es.value))
                    else r.Err? && table.rows == old(table.rows))
  {
    if !(password == Some(configured)) {
      return Ok(GoPriceResource.NotFound);
    }
    var prices := JavaPricesService.GetPrices(feed, date);
    if prices.Err? {
      return Err(prices.error);
    }
    if prices.value.None? {
      return Err("NullPointerException");
    }
    r := StoreAccepted(table, prices.value.value, execFault);
  }
}
