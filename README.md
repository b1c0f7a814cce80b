# ehin price service — a Dafny model

ehin serves Finnish day-ahead electricity prices. A refresh endpoint takes the
next day's prices from the Nord Pool day-ahead feed, validates the payload,
keeps the intervals that carry an FI price and inserts them into the
`price_history` table. A query endpoint returns the stored prices around a
requested date, with `Cache-Control` and `Expires` headers chosen by whether
the prices for that date are already known. The service exists twice: the Go
service under `api/internal` and an earlier Quarkus/Java port under
`api/src/main/java`. Each is modelled in its own modules so that the places
where the two differ can be stated and proved.

Modules:

- `Civil`: proleptic Gregorian dates, day numbers since 1970-01-01 and their
  inverse, weekdays, and UTC instants in whole seconds since the epoch.
- `Decimal`: zero-padded decimal rendering and reading.
- `HttpDate`: the IMF-fixdate format of section 5.6.7 of RFC 9110. Go's
  `t.UTC().Format("Mon, 02 Jan 2006 15:04:05 GMT")` renders it and `ParseGmt`
  reads it back. Java's `RFC_1123_DATE_TIME` prints the day without padding.
- `Helsinki`: Europe/Helsinki wall-clock time under the EU summer-time rule of
  Directive 2000/84/EC. Standard time is UTC+2. Summer time is UTC+3, from
  01:00 UTC on the last Sunday of March to 01:00 UTC on the last Sunday of
  October. `Zone` also has `Utc`, the Go handler's fallback when the zone
  cannot be loaded.
- `Model`: the stored row (`PriceHistoryEntry`) and the upstream payload, in
  its Go shape and its nullable Java shape.
- `PricesService` / `JavaPricesService`: payload validation (`invalidPrices`),
  `GetPrices`, `GetTomorrowsPrices`, and the conversion to price rows.
- `PriceStore`: the `price_history` table as the SQL text uses it. The table
  is a class `PriceTable` whose `rows` are kept in `delivery_start` order with
  the key unique. `ExecInsert` implements `INSERT ... ON CONFLICT
  (delivery_start) DO NOTHING` over bound parameters, and `Select` implements
  `SELECT ... WHERE ... ORDER BY delivery_start`.
- `GoPriceRepository` / `JavaPriceRepository`: each builds its INSERT
  statement and arguments in a loop and runs its range query.
- `DateUtils` / `JavaDateUtils`: seconds until 12:00 UTC, and the `Expires`
  text.
- `GoPriceResource` / `JavaPriceResource`: the query handler's window and
  cache decision, and the two password-gated refresh handlers.

Instants are integers, and the current time, the random `Expires` seconds,
the upstream feed and database failures are all parameters. Go errors and
Java exceptions are `Err` values. Java `null` is `None`.

## Model

| member | source | states |
|---|---|---|
| PricesService.DayAheadRequest | api/internal/service/prices_service.go:30 | The upstream request is always for market DayAhead, area FI and currency EUR, on the given date. |
| PricesService.FirstFiState | api/internal/service/prices_service.go:78-89 | The FI state is absent iff no area state lists FI. When present, it is an element of the list that lists FI. |
| PricesService.FirstFiStateAt | api/internal/service/prices_service.go:78-89 | The state at index i is the FI state exactly when it lists FI and no earlier state does. |
| PricesService.FirstFiStateDecides | api/internal/service/prices_service.go:78-89 | Once a state listing FI is found, later states are never consulted: changing them does not change the result. |
| PricesService.InvalidPrices | api/internal/service/prices_service.go:60-101 | The nested loop with breaks rejects a payload iff it is not acceptable. Nil, a market other than DayAhead, a currency other than EUR and an empty state list are each rejected. |
| PricesService.AcceptableCharacterized | api/internal/service/prices_service.go:60-101 | Acceptance spelled out: the payload is present, the market is DayAhead and the currency is EUR. Some index i lists FI, no earlier index does, and the state at i is exactly Final. |
| PricesService.Validated | api/internal/service/prices_service.go:29-40 | A client error passes through unchanged. Otherwise the payload is kept unchanged iff it is acceptable, and is nil otherwise. |
| PricesService.GetPrices | api/internal/service/prices_service.go:29-40 | Exactly one request, the day-ahead FI/EUR one for the date, followed by validation. |
| PricesService.GetTomorrowsPrices | api/internal/service/prices_service.go:24-27 | The request is for the day whose day number is one more than today's. |
| PricesService.FiEntries | api/internal/service/prices_service.go:47-57 | The filtered rows are never more than the payload's intervals. |
| PricesService.ToPriceHistoryEntries | api/internal/service/prices_service.go:42-58 | The append loop returns nil for nil. Otherwise it returns one row per FI-priced interval, in payload order. |
| PricesService.FiEntriesAppend | api/internal/service/prices_service.go:48-56 | The filter distributes over concatenation, so the payload's order is kept. |
| PricesService.FiEntriesMembers | api/internal/service/prices_service.go:48-56 | Every FI-priced interval yields its row (start, end and FI price), and every row comes from such an interval. |
| PricesService.FiEntriesAllPriced | api/internal/service/prices_service.go:48-56 | No interval is dropped iff every interval has an FI price. |
| Model.ToJava | api/src/main/java/fi/ehin/external/NordPoolClient.java:19-41 | The Java records that a complete payload decodes to: market, currency and area states are present and equal to the Go fields. |
| JavaPricesService.FirstFiState | api/src/main/java/fi/ehin/service/PricesService.java:58-62 | `filter(...).findFirst()` is empty iff no state has non-null areas containing FI. Otherwise it is the first such state in list order. |
| JavaPricesService.FirstFiStateIndex | api/src/main/java/fi/ehin/service/PricesService.java:58-62 | The result is the state at the first index that lists FI. |
| JavaPricesService.InvalidPrices | api/src/main/java/fi/ehin/service/PricesService.java:41-72 | Null, a market or currency that is not equal (null included), null or empty states, and no FI state are each invalid. Otherwise the payload is valid exactly when the FI state is Final. |
| JavaPricesService.Validated | api/src/main/java/fi/ehin/service/PricesService.java:35-38 | An exception passes through. The payload is returned unchanged iff it is valid, and null otherwise. |
| JavaPricesService.GetPrices | api/src/main/java/fi/ehin/service/PricesService.java:28-39 | The day-ahead FI/EUR request for the date, then validation. |
| JavaPricesService.GetTomorrowsPrices | api/src/main/java/fi/ehin/service/PricesService.java:15-26 | GetPrices for the day after today, one day number later. |
| JavaPricesService.AgreesWithGo | api/src/main/java/fi/ehin/service/PricesService.java:41-72 | On a payload with every field present, the Java checks reject exactly what the Go checks reject. |
| PriceStore.InsertRow | api/internal/db/repository/price_repository.go:93 | Insert-or-skip of one row keeps the table in key order and adds no row other than the new one. |
| PriceStore.InsertRowEffect | api/internal/db/repository/price_repository.go:93 | After the insert the table has the old keys plus the new key. A present key leaves the table unchanged. A new key adds exactly that row, and no old row is lost. |
| PriceStore.InsertAllKeys | api/internal/db/repository/price_repository.go:92-95 | After a batch insert the table's keys are the old keys plus the batch's keys. |
| PriceStore.InsertAllKeepsRows | api/internal/db/repository/price_repository.go:92-95 | Existing rows survive unchanged: a conflicting row never overwrites them. Every row afterwards was already there or came from the batch. |
| PriceStore.InsertAllPresent | api/internal/db/repository/price_repository.go:92-95 | A batch whose keys are all present changes nothing. |
| PriceStore.InsertAllIdempotent | api/internal/db/repository/price_repository.go:92-95 | Inserting the same batch twice has the effect of inserting it once. |
| PriceStore.AscendingKeyCount | api/internal/db/repository/price_repository.go:93 | delivery_start is unique: the table has as many keys as rows. |
| PriceStore.InsertAllCount | api/internal/db/repository/price_repository.go:102 | The number of rows inserted is the number of batch keys the table did not have. |
| PriceStore.Where | api/internal/db/repository/price_repository.go:46-51 | A row is selected iff it is in the table and satisfies the WHERE clause, and order is kept. |
| PriceStore.IndexOf | api/internal/db/repository/price_repository.go:93 | A column is found at its first position, or is reported absent. |
| PriceStore.DecodeArgs | api/internal/db/repository/price_repository.go:92-97 | A statement with n tuples that decodes at all denotes exactly n rows. |
| PriceStore.PriceTable.constructor | api/internal/db/repository/price_repository.go:28-35 | A new table is empty. |
| PriceStore.PriceTable.ExecInsert | api/internal/db/repository/price_repository.go:92-102 | A statement with no tuples, or whose parameters do not decode (a NULL price), fails and changes nothing. Otherwise every decoded row is inserted or skipped, and the result is the number of rows added. |
| PriceStore.PriceTable.Select | api/internal/db/repository/price_repository.go:46-51 | The result is in delivery_start order and holds exactly the table rows that satisfy the filter. |
| GoPriceRepository.Args | api/internal/db/repository/price_repository.go:84-90 | There are three arguments per entry. |
| GoPriceRepository.ArgsLayout | api/internal/db/repository/price_repository.go:86-90 | Argument 3i+c, bound to placeholder $(3i+c+1), is entry i's value for the c-th column of (delivery_start, delivery_end, price). |
| GoPriceRepository.ArgsRoundTrip | api/internal/db/repository/price_repository.go:86-95 | Reading the arguments back by the column list gives the entries: nothing is swapped or lost. |
| GoPriceRepository.BuildInsert | api/internal/db/repository/price_repository.go:83-95 | The loop builds the statement with one numbered tuple per entry, and the argument list, entry by entry. |
| GoPriceRepository.InsertPrices | api/internal/db/repository/price_repository.go:75-103 | An empty batch returns (0, nil) and changes nothing. An Exec error returns 0 and the error and changes nothing. Otherwise the batch is inserted-or-skipped, and the count is the number of new keys. |
| GoPriceRepository.GetPrices | api/internal/db/repository/price_repository.go:45-72 | On success the result is every row with from <= delivery_start < to, ascending. A query, scan or cursor error gives no list at all. A scan error counts only if that row exists. |
| JavaPriceRepository.BuildStatement | api/src/main/java/fi/ehin/repository/PriceRepository.java:95-105 | The StringBuilder loop produces the statement text: "(?, ?, ?)" per entry, separated by ", \n" (comma, space, newline), then the ON CONFLICT clause. |
| JavaPriceRepository.StatementParameters | api/src/main/java/fi/ehin/repository/PriceRepository.java:95-105 | The statement has exactly 3n "?" parameters for n entries. |
| JavaPriceRepository.Params | api/src/main/java/fi/ehin/repository/PriceRepository.java:107-112 | Three parameters are bound per entry. |
| JavaPriceRepository.Bind | api/src/main/java/fi/ehin/repository/PriceRepository.java:107-112 | The paramCounter loop succeeds iff no entry has a null entryPerArea. It then binds (FI price, start, end) per entry, in order. |
| JavaPriceRepository.Rows | api/src/main/java/fi/ehin/repository/PriceRepository.java:107-112 | A fully priced entry list stands for one row per entry, in order. |
| JavaPriceRepository.ParamsDecode | api/src/main/java/fi/ehin/repository/PriceRepository.java:95-112 | The database reads the bound parameters back as exactly those rows, or as an error when a FI price is null. |
| JavaPriceRepository.InsertPrices | api/src/main/java/fi/ehin/repository/PriceRepository.java:90-125 | It succeeds iff the list is present and non-empty, every entry is priced, and the database does not fail. On success the rows are inserted-or-skipped. On failure nothing changes. |
| JavaPriceRepository.GetPrices | api/src/main/java/fi/ehin/repository/PriceRepository.java:61-88 | It fails iff the database fails. Otherwise it returns every row with from < delivery_start and delivery_end < to, ascending. |
| DateUtils.NextNoonUtc | api/internal/utils/date_utils.go:9-15 | The target is a 12:00:00 UTC instant, strictly after now and at most one day later. |
| DateUtils.SecondsUntil12 | api/internal/utils/date_utils.go:9-18 | The result is in 0..86400, and is 86400 exactly at 12:00:00.000 UTC. With no fraction, now plus the result is noon; with a fraction, the seconds are truncated. |
| DateUtils.GetGmtStringForCache | api/internal/utils/date_utils.go:25-27 | For years 0000..9999 the text is 29 characters and parses back to the same instant. |
| DateUtils.GetGmtStringForCacheFromParts | api/internal/utils/date_utils.go:31-34 | The text parses back to 11:57:extraSeconds UTC on the date, and starts with the date's weekday and month names. |
| DateUtils.FromPartsText | api/internal/utils/date_utils.go:31-34 | The text field by field: weekday, padded day, month, four-digit year, 11, 57, padded seconds. |
| DateUtils.FromPartsMarch | api/internal/utils/date_utils_test.go:122-127 | 2025-03-29 with 0 seconds renders "Sat, 29 Mar 2025 11:57:00 GMT". |
| DateUtils.FromPartsFebruary | api/internal/utils/date_utils_test.go:128-133 | 2025-02-22 with 25 seconds renders "Sat, 22 Feb 2025 11:57:25 GMT". |
| DateUtils.FromPartsMay | api/internal/utils/date_utils_test.go:134-139 | 2025-05-29 with 50 seconds renders "Thu, 29 May 2025 11:57:50 GMT". |
| JavaDateUtils.TruncDiv | api/src/main/java/fi/ehin/utils/DateUtils.java:21-24 | Java long division rounds toward zero, for negative dividends too. |
| JavaDateUtils.SecondsUntil12 | api/src/main/java/fi/ehin/utils/DateUtils.java:19-25 | The signed seconds to noon of the same UTC day, with no next-day rollover. The result is negative after noon, non-negative before it, and exact without a fraction. |
| JavaDateUtils.SecondsUntil12Utc | api/src/main/java/fi/ehin/utils/DateUtils.java:27-29 | With the nanoseconds dropped, the result is exactly noon minus the second of the day. |
| JavaDateUtils.SecondsUntil12AgreesBeforeNoon | api/src/main/java/fi/ehin/utils/DateUtils.java:19-25 | Before 12:00 UTC the Java and Go counts are equal. |
| JavaDateUtils.GetGmtStringForCacheOn | api/src/main/java/fi/ehin/utils/DateUtils.java:38-57 | The text is present iff seconds are in 0..59 and the year is in 0000..9999; otherwise withSecond or the formatter throws. Two-digit days give the Go text. Days 1..9 give the Go text with the day's leading '0' removed: 28 characters, not an IMF-fixdate. |
| JavaDateUtils.GetGmtStringForCache | api/src/main/java/fi/ehin/utils/DateUtils.java:31-36 | For every instant and offset, with local the date at that offset: the text is present iff local's year is in 0000..9999. For a day of 10 or more it parses back to 11:57 plus the random seconds UTC on local. For days 1..9 it is that date's Go text with the day's leading '0' removed: 28 characters that do not parse. |
| JavaDateUtils.SameLocalDaySameText | api/src/main/java/fi/ehin/utils/DateUtils.java:35 | Two instants with the same local day give the same text, whatever their clock times: only toLocalDate() is used. |
| JavaDateUtils.GmtStringExamples | api/src/test/java/fi/ehin/utils/DateUtilsTest.java:40-42 | The three expected strings of the Java tests. |
| JavaDateUtils.GmtStringSingleDigitDay | api/src/main/java/fi/ehin/utils/DateUtils.java:56 | 2025-03-05 renders "Wed, 5 Mar 2025 11:57:00 GMT", which an IMF-fixdate reader rejects. |
| HttpDate.ImfFixdateUnpadded | api/src/main/java/fi/ehin/utils/DateUtils.java:56 | The layout with a one-digit day is the layout with that day padded by '0', less the sixth character. |
| JavaDateUtils.JavaFormatAgainstGo | api/src/main/java/fi/ehin/utils/DateUtils.java:56 | RFC_1123_DATE_TIME equals the Go layout for two-digit days. For days 1..9 it is the Go text less the day's leading '0', 28 characters long and unparseable. |
| HttpDate.FormatGmtRoundTrip | api/internal/utils/date_utils.go:25-27 | Every instant in years 0000..9999 renders to 29 characters that parse back to the same instant. |
| HttpDate.FormatGmtNames | api/internal/utils/date_utils.go:25-27 | The weekday and month names stand at their IMF-fixdate positions. |
| HttpDate.JavaFormatRfc1123 | api/src/main/java/fi/ehin/utils/DateUtils.java:56 | The formatter produces text iff the year has four digits. |
| Civil.CivilFromDays | api/internal/api/resource/price_resource.go:162-163 | The date of a day number is a valid date with that day number. |
| Civil.CivilRoundTrip | api/internal/api/resource/price_resource.go:162-163 | Date to day number to date is the identity. |
| Civil.DaysFromCivilOrder | api/src/main/java/fi/ehin/resource/PriceResource.java:72 | LocalDate.isAfter agrees with day-number order, and equal day numbers mean equal dates. |
| Civil.AddDays | api/internal/service/prices_service.go:25 | AddDate(0, 0, k) moves the day number by exactly k. |
| Civil.InstantAtFields | api/internal/api/resource/price_resource.go:166 | time.Date with in-range clock fields is inverted by the UTC date and second of day. |
| Helsinki.LastSunday | api/src/main/java/fi/ehin/utils/DateUtils.java:17 | The day is a Sunday within the last seven days of the month. |
| Helsinki.OffsetAt | api/src/main/java/fi/ehin/utils/DateUtils.java:17 | Helsinki is always UTC+2 or UTC+3; the UTC fallback is UTC+0. |
| Helsinki.MidnightOffsetAgrees | api/internal/api/resource/price_resource.go:143 | The offset chosen for a local midnight is the offset the rule gives at that instant. |
| Helsinki.LocalMidnightIsMidnight | api/internal/api/resource/price_resource.go:143 | time.Date(y, m, d, 0, 0, 0, 0, zone) is a wall-clock midnight, on day d. |
| Helsinki.LocalMidnightOrder | api/internal/api/resource/price_resource.go:163-165 | One midnight is later than another iff its date is later. |
| Helsinki.LocalDateBracket | api/internal/api/resource/price_resource.go:162-163 | Every instant lies between the midnight that starts its local date and the next one. |
| Helsinki.AtOrAfterMidnight | api/internal/api/resource/price_resource.go:146-149 | An instant is at or after a date's midnight iff its local date is that date or later. |
| Helsinki.AutumnChange2023 | api/internal/api/resource/price_resource_test.go:79-93 | The Helsinki midnights around the change back to standard time on 2023-10-29. |
| GoPriceResource.ParseDate | api/internal/api/resource/price_resource.go:121-126 | time.Parse("2006-01-02") accepts only four year digits, a dash, two month digits, a dash and two day digits that form a valid date. An accepted text is exactly the full-date form of the returned date, so the digits spell that date. |
| GoPriceResource.FormatDateSpells | api/internal/api/resource/price_resource.go:121-126 | Four digits, a dash, two digits, a dash and two digits are the full-date form of the date those digits spell. |
| Decimal.DigitsZeroPad | api/internal/api/resource/price_resource.go:121-126 | A string of digits is the zero padding of its own value to its own length. |
| GoPriceResource.ParseDateRoundTrip | api/internal/api/resource/price_resource.go:121-126 | Every date with a four-digit year is accepted in its full-date form (section 5.6 of RFC 3339) and read back unchanged. |
| GoPriceResource.ParseDateRejectsDayFirst | api/internal/api/resource/price_resource.go:122-125 | "27-10-2023" is rejected. |
| GoPriceResource.PublicationTime | api/internal/api/resource/price_resource.go:166 | pricesUpdateTime is on the requested UTC date, at 11:57:00. |
| GoPriceResource.CacheDirective | api/internal/api/resource/price_resource.go:156-189 | The immutable directive iff settled. "public, max-age=60" iff unsettled and now, to the nanosecond, is after 11:57:00 UTC. "public" with Expires iff unsettled and now is not after it. The Expires value parses back to 11:57:00 UTC on the date. |
| GoPriceResource.SettledByMidnights | api/internal/api/resource/price_resource.go:161-165 | The handler's midnight comparison decides exactly whether the last price's local date is after the requested date. |
| GoPriceResource.DecideCache | api/internal/api/resource/price_resource.go:156-189 | The reassigned cacheString and expiresValue, through the empty and non-empty branches, give the cache directive. |
| GoPriceResource.QueryWindow | api/internal/api/resource/price_resource.go:143-147 | The window is non-empty. |
| GoPriceResource.QueryWindowDays | api/internal/api/resource/price_resource.go:143-149 | An instant is in [midnight of date - 1, midnight of date + 3) iff its local date is between date - 1 and date + 2. |
| GoPriceResource.CacheExamples | api/internal/api/resource/price_resource_test.go:79-125 | For 2023-10-27: a price at Helsinki midnight of the 28th settles the date. A last price at 23:00 on the 27th does not. The result is then "public" with Expires "Fri, 27 Oct 2023 11:57:00 GMT" before 11:57 UTC, at 11:57:00 exactly and before it, and a one-minute cache from half a second past it. |
| DateUtils.FromPartsOctober | api/internal/api/resource/price_resource.go:166-170 | 11:57:00 UTC on 2023-10-27 renders "Fri, 27 Oct 2023 11:57:00 GMT". |
| GoPriceResource.GetPastPrices | api/internal/api/resource/price_resource.go:120-194 | A bad date gives 400. A missing repository gives 500. Otherwise the window's rows are queried, with UTC when the zone cannot load. A read error gives 500, and success gives the rows with the cache directive. |
| GoPriceResource.StoreFetched | api/internal/api/resource/price_resource.go:48-73 | A fetch error gives 500 and no change. A rejected payload gives done=false and no insert. Otherwise the FI rows are inserted: done=true, or 500 with no change when a non-empty insert fails. |
| GoPriceResource.UpdatePrices | api/internal/api/resource/price_resource.go:39-74 | An unset or wrong password gives 404 and no change. Otherwise tomorrow's validated payload is stored as in StoreFetched. |
| GoPriceResource.UpdatePricesForDate | api/internal/api/resource/price_resource.go:76-118 | The password is checked first, then the date must parse (400 otherwise). The validated payload for that date is stored as in StoreFetched. |
| JavaPriceResource.CacheLongAgreesWithGo | api/src/main/java/fi/ehin/utils/RequestUtils.java:11-12 | 60*60*168 makes CACHE_LONG the same string as the Go constant. |
| JavaPriceResource.QueryWindow | api/src/main/java/fi/ehin/resource/PriceResource.java:54-68 | The window is exactly four days long at one fixed offset. |
| JavaPriceResource.QueryWindowAgainstGo | api/src/main/java/fi/ehin/resource/PriceResource.java:54-68 | Each bound equals the Go bound iff the current offset is the one in force at that bound's midnight. |
| JavaPriceResource.LocalDateAt | api/src/main/java/fi/ehin/resource/PriceResource.java:71 | toLocalDate at the value's own offset is a valid date. |
| JavaPriceResource.CacheDirective | api/src/main/java/fi/ehin/resource/PriceResource.java:69-84 | A newest date after the requested one gives CACHE_LONG. Otherwise the result is "public, max-age=60" once now, to the nanosecond, is after 11:57:00 UTC, or "public" with Expires, which is present iff the year has four digits. For two-digit days the Expires value parses to 11:57 plus the random seconds. For days 1..9 it is that Go text with the day's leading '0' removed. |
| JavaPriceResource.ExpiresAt | api/src/main/java/fi/ehin/resource/PriceResource.java:77 | The Expires value is present iff the year has four digits. For two-digit days it parses to the requested date at 11:57 plus the random seconds. For days 1..9 it is that Go text with the day's leading '0' removed. |
| JavaPriceResource.NewestReadAtUtc | api/src/main/java/fi/ehin/resource/PriceResource.java:71-72 | A price starting at Helsinki midnight of 2023-10-28, read at offset zero, is dated the 27th. Java then answers "public" where Go answers with the immutable directive. |
| JavaPriceResource.GetPastPrices | api/src/main/java/fi/ehin/resource/PriceResource.java:49-85 | A database error throws. An empty result throws at getLast. Otherwise the cache directive is applied to the newest row, and a formatter failure throws. |
| JavaPriceResource.StoreAccepted | api/src/main/java/fi/ehin/resource/PriceResource.java:103-105 | done=true iff the insert succeeds, and then the rows are inserted-or-skipped. On failure the table is unchanged. |
| JavaPriceResource.UpdatePrices | api/src/main/java/fi/ehin/resource/PriceResource.java:92-106 | A password not equal to the configured one gives not-found. A null payload gives done=false without an insert. Otherwise the entries are inserted and done=true, or an exception is thrown with no change. |
| JavaPriceResource.UpdatePricesForDate | api/src/main/java/fi/ehin/resource/PriceResource.java:111-123 | Same gate. A rejected (null) payload is dereferenced and throws. Otherwise it behaves like updatePrices. |
| Decimal.ZeroPadRoundTrip | api/internal/utils/date_utils.go:21 | Zero-padded numbers read back as themselves, and fill the width exactly when they fit. |

## Left out

- HTTP transport, JSON encoding and decoding, and the upstream client with its 10 second timeout and status checks are not modelled. The feed is a function parameter returning a payload or an error.
- Server wiring, configuration loading, CORS, the greeting endpoint and logging are not modelled: they have no decision logic.
- The wall clock (`date_service.go`, `LocalDate.now()`, `dateService.now()`) is a parameter: whole seconds since the epoch plus nanoseconds.
- The IANA time zone database is replaced by the EU summer-time rule. Helsinki has followed that rule since 1996, so dates before then are not modelled faithfully.
- Price values are opaque reals. `decimal.NewFromFloat` and `BigDecimal` conversion are not modelled.
- Java's `RandomGenerator.nextInt(0, 59)` is a parameter constrained to 0..58.
- The PostgreSQL engine is modelled only through what the SQL text states. The table is assumed to declare `price` NOT NULL, so a null FI price makes the Java insert fail. Transactions and concurrent writers are not modelled.
- `Select1` / `select1` (the health-check query) is not modelled: it only probes the connection.
- Java's conversion of the `{date}` path segment to `LocalDate` is done by the framework and is not modelled. The Java handlers receive a valid date.
- Null elements inside Java lists, and null `deliveryStart`/`deliveryEnd`, are not modelled. Null fields of the records and a null payload are modelled.
- Go's distinction between a nil and an empty slice is not modelled. `ToPriceHistoryEntries` returns `None` only for a nil payload.
- The "answers 404 before any fetch" order of the update handlers is not observable with a pure feed function. The contracts state that an unauthorised call changes nothing.
- DateUtils.SecondsUntil12: Go's `int(d.Seconds())` goes through a float64. It is modelled as exact truncating division of the nanosecond count.
- GoPriceResource.CacheDirective: the exact `Expires` text is stated by what it parses back to, and only for years 0000..9999. Outside that range Go prints a year that is not four digits.
- The Go handler's "Done" flag is true whenever the insert returns no error, even when the validated payload had no FI-priced intervals. The model follows the code here, not the reading that an empty payload answers false.
- Settledness follows the handler's code: prices are settled (immutable cache) when the last stored interval's Helsinki date is after the requested date.
