/**
 * The Go PricesService: fetch the day-ahead prices for a date, reject payloads that are
 * not final FI/EUR day-ahead data, and turn the accepted ones into price rows.
 */
module PricesService {
  import opened Wrappers
  import opened Civil
  import opened Model

  const DayAhead := "DayAhead"
  const Fi := "FI"
  const Eur := "EUR"
  const Final := "Final"

  /** The only request the service ever sends: day-ahead, delivery area FI, in euros. */
  function DayAheadRequest(date: Date): (q: FeedRequest)
    ensures q.date == date && q.market == "DayAhead" && q.deliveryArea == "FI" && q.currency == "EUR"
  {
    FeedRequest(date, DayAhead, Fi, Eur)
  }

  /** The first area state, in list order, that lists FI. */
  function FirstFiState(states: seq<AreaState>): (r: Option<AreaState>)
    ensures r.None? <==> forall i :: 0 <= i < |states| ==> Fi !in states[i].areas
    ensures r.Some? ==> exists i :: 0 <= i < |states| && r.value == states[i] && Fi in states[i].areas
                                    && forall j :: 0 <= j < i ==> Fi !in states[j].areas
  {
    if |states| == 0 then None
    else if Fi in states[0].areas then Some(states[0])
    else
      var r := FirstFiState(states[1..]);
      assert forall i :: 1 <= i < |states| ==> states[i] == states[1..][i - 1];
      if r.Some? then
        var k :| 0 <= k < |states| - 1 && r.value == states[1..][k] && Fi in states[1..][k].areas
                 && forall j :: 0 <= j < k ==> Fi !in states[1..][j].areas;
        assert forall j :: 0 <= j < k + 1 ==> Fi !in states[j].areas by {
          forall j | 0 <= j < k + 1 ensures Fi !in states[j].areas {
            if j > 0 { assert states[j] == states[1..][j - 1]; }
          }
        }
        r
      else r
  }

  /** A payload the service accepts. */
  predicate Acceptable(prices: Option<PriceDataResponse>) {
    match prices
    case None => false
    case Some(p) =>
      p.market == DayAhead && p.currency == Eur && |p.areaStates| > 0
      && var fi := FirstFiState(p.areaStates); fi.Some? && fi.value.state == Final
  }

  /**
   * invalidPrices: guard by guard, then a nested search for the first state listing FI
   * that stops at the first match.
   */
  method InvalidPrices(prices: Option<PriceDataResponse>) returns (invalid: bool)
    ensures invalid <==> !Acceptable(prices)
    ensures prices.None? ==> invalid
    ensures prices.Some? && prices.value.market != "DayAhead" ==> invalid
    ensures prices.Some? && prices.value.currency != "EUR" ==> invalid
    ensures prices.Some? && |prices.value.areaStates| == 0 ==> invalid
  {
    if prices.None? {
      return true;
    }
    var p := prices.value;
    if p.market != DayAhead {
      return true;
    }
    if p.currency != Eur {
      return true;
    }
    if |p.areaStates| == 0 {
      return true;
    }
    var fiState: Option<AreaState> := None;
    var i := 0;
    while i < |p.areaStates|
      invariant 0 <= i <= |p.areaStates|
      invariant fiState.None?
      invariant forall j :: 0 <= j < i ==> Fi !in p.areaStates[j].areas
      decreases |p.areaStates| - i
    {
      var state := p.areaStates[i];
      var k := 0;
      while k < |state.areas|
        invariant 0 <= k <= |state.areas|
        invariant fiState.None?
        invariant forall m :: 0 <= m < k ==> state.areas[m] != Fi
        decreases |state.areas| - k
      {
        if state.areas[k] == Fi {
          FirstFiStateAt(p.areaStates, i);
          fiState := Some(state);
          break;
        }
        k := k + 1;
      }
      if fiState.Some? {
        break;
      }
      i := i + 1;
    }
    assert fiState.Some? ==> fiState == FirstFiState(p.areaStates);
    if fiState.None? {
      return true;
    }
    if fiState.value.state != Final {
      return true;
    }
    return false;
  }

  /** The state at index i is the FI state when it lists FI and no earlier one does. */
  lemma FirstFiStateAt(states: seq<AreaState>, i: int)
    requires 0 <= i < |states| && Fi in states[i].areas
    requires forall j :: 0 <= j < i ==> Fi !in states[j].areas
    ensures FirstFiState(states) == Some(states[i])
  {
    var r := FirstFiState(states);
    var k :| 0 <= k < |states| && r.value == states[k] && Fi in states[k].areas
             && forall j :: 0 <= j < k ==> Fi !in states[j].areas;
    assert k == i;
  }

  /**
   * Only the first FI state decides: states after it are never consulted, whatever they say.
   */
  lemma FirstFiStateDecides(before: seq<AreaState>, fi: AreaState, after1: seq<AreaState>, after2: seq<AreaState>)
    requires forall j :: 0 <= j < |before| ==> Fi !in before[j].areas
    requires Fi in fi.areas
    ensures FirstFiState(before + [fi] + after1) == FirstFiState(before + [fi] + after2) == Some(fi)
  {
    FirstFiStateAt(before + [fi] + after1, |before|);
    FirstFiStateAt(before + [fi] + after2, |before|);
  }

  /** Acceptance spelled out: the four guards, then the FI state found by index. */
  lemma AcceptableCharacterized(p: PriceDataResponse)
    ensures Acceptable(Some(p)) <==>
              p.market == "DayAhead" && p.currency == "EUR"
              && exists i :: 0 <= i < |p.areaStates| && Fi in p.areaStates[i].areas
                             && (forall j :: 0 <= j < i ==> Fi !in p.areaStates[j].areas)
                             && p.areaStates[i].state == "Final"
  {
    var r := FirstFiState(p.areaStates);
    if exists i :: 0 <= i < |p.areaStates| && Fi in p.areaStates[i].areas
                   && (forall j :: 0 <= j < i ==> Fi !in p.areaStates[j].areas)
                   && p.areaStates[i].state == "Final" {
      var i :| 0 <= i < |p.areaStates| && Fi in p.areaStates[i].areas
               && (forall j :: 0 <= j < i ==> Fi !in p.areaStates[j].areas)
               && p.areaStates[i].state == "Final";
      FirstFiStateAt(p.areaStates, i);
    }
  }

  /** GetPrices on the client's answer: errors pass through, rejected payloads become nil. */
  function Validated(fetched: GoFetch): (r: GoFetch)
    ensures fetched.Err? ==> r == fetched
    ensures fetched.Ok? ==> r.Ok? && (r.value.Some? <==> Acceptable(fetched.value))
    ensures fetched.Ok? && r.value.Some? ==> r.value == fetched.value
  {
    match fetched
    case Err(e) => Err(e)
    case Ok(p) => if Acceptable(p) then Ok(p) else Ok(None)
  }

  /** GetPrices(date): one upstream request for the date, then validation. */
  method GetPrices(feed: FeedRequest -> GoFetch, date: Date) returns (r: GoFetch)
    ensures r == Validated(feed(DayAheadRequest(date)))
  {
    var fetched := feed(DayAheadRequest(date));
    if fetched.Err? {
      return Err(fetched.error);
    }
    var invalid := InvalidPrices(fetched.value);
    if invalid {
      return Ok(None);
    }
    return fetched;
  }

  /** GetTomorrowsPrices: GetPrices for the calendar day after the provider's current date. */
  method GetTomorrowsPrices(feed: FeedRequest -> GoFetch, today: Date) returns (r: GoFetch)
    requires ValidDate(today)
    ensures r == Validated(feed(DayAheadRequest(AddDays(today, 1))))
    ensures DaysFromCivil(AddDays(today, 1)) == DaysFromCivil(today) + 1
  {
    r := GetPrices(feed, AddDays(today, 1));
  }

  // ---- ToPriceHistoryEntries ----

  function ToEntry(e: MultiAreaEntry): PriceHistoryEntry
    requires Fi in e.entryPerArea
  {
    PriceHistoryEntry(e.entryPerArea[Fi], e.deliveryStart, e.deliveryEnd)
  }

  /** The rows for the intervals that carry an FI price, in payload order. */
  function FiEntries(es: seq<MultiAreaEntry>): (r: seq<PriceHistoryEntry>)
    ensures |r| <= |es|
  {
    if |es| == 0 then []
    else FiEntries(es[..|es| - 1]) + (var e := es[|es| - 1]; if Fi in e.entryPerArea then [ToEntry(e)] else [])
  }

  /** ToPriceHistoryEntries: nil in, nil out; otherwise append one row per FI-priced interval. */
  method ToPriceHistoryEntries(prices: Option<PriceDataResponse>) returns (r: Option<seq<PriceHistoryEntry>>)
    ensures prices.None? <==> r.None?
    ensures prices.Some? ==> r.value == FiEntries(prices.value.multiAreaEntries)
  {
    if prices.None? {
      return None;
    }
    var es := prices.value.multiAreaEntries;
    var entries: seq<PriceHistoryEntry> := [];
    var i := 0;
    while i < |es|
      invariant 0 <= i <= |es|
      invariant entries == FiEntries(es[..i])
      decreases |es| - i
    {
      var entry := es[i];
      assert es[..i + 1][..i] == es[..i];
      if Fi in entry.entryPerArea {
        entries := entries + [ToEntry(entry)];
      }
      i := i + 1;
    }
    assert es[..|es|] == es;
    return Some(entries);
  }

  /** The filter distributes over concatenation, so the rows keep the payload's order. */
  lemma {:induction false} FiEntriesAppend(a: seq<MultiAreaEntry>, b: seq<MultiAreaEntry>)
    ensures FiEntries(a + b) == FiEntries(a) + FiEntries(b)
    decreases |b|
  {
    if |b| == 0 {
      assert a + b == a;
    } else {
      var b' := b[..|b| - 1];
      assert (a + b)[..|a + b| - 1] == a + b';
      FiEntriesAppend(a, b');
    }
  }

  /** Every FI-priced interval yields a row, and every row comes from an FI-priced interval. */
  lemma {:induction false} FiEntriesMembers(es: seq<MultiAreaEntry>)
    ensures forall e :: e in es && Fi in e.entryPerArea ==> ToEntry(e) in FiEntries(es)
    ensures forall row :: row in FiEntries(es) ==> exists e :: e in es && Fi in e.entryPerArea && row == ToEntry(e)
  {
    if |es| > 0 {
      var init := es[..|es| - 1];
      FiEntriesMembers(init);
      assert es == init + [es[|es| - 1]];
      forall e | e in es && Fi in e.entryPerArea ensures ToEntry(e) in FiEntries(es) {
        if e in init {
        } else {
          assert e == es[|es| - 1];
        }
      }
      forall row | row in FiEntries(es) ensures exists e :: e in es && Fi in e.entryPerArea && row == ToEntry(e) {
        if row in FiEntries(init) {
          var e :| e in init && Fi in e.entryPerArea && row == ToEntry(e);
          assert e in es;
        } else {
          assert es[|es| - 1] in es;
        }
      }
    }
  }

  /** Intervals without an FI price contribute nothing. */
  lemma {:induction false} FiEntriesAllPriced(es: seq<MultiAreaEntry>)
    ensures |FiEntries(es)| == |es| <==> forall i :: 0 <= i < |es| ==> Fi in es[i].entryPerArea
  {
    if |es| > 0 {
      var init := es[..|es| - 1];
      FiEntriesAllPriced(init);
      assert forall i :: 0 <= i < |init| ==> init[i] == es[i];
    }
  }
}

/**
 * The Java PricesService: the same checks, written as guards and a stream search, over
 * records whose fields may be null.
 */
module JavaPricesService {
  import opened Wrappers
  import opened Civil
  import opened Model
  import PricesService

  /** `s.areas() != null && s.areas().contains("FI")` */
  predicate ListsFi(s: JavaAreaState) {
    s.areas.Some? && "FI" in s.areas.value
  }

  /** `areaStates().stream().filter(ListsFi).findFirst()` */
  function FirstFiState(states: seq<JavaAreaState>): (r: Option<JavaAreaState>)
    ensures r.None? <==> forall i :: 0 <= i < |states| ==> !ListsFi(states[i])
    ensures r.Some? ==> exists i :: 0 <= i < |states| && r.value == states[i] && ListsFi(states[i])
                                    && forall j :: 0 <= j < i ==> !ListsFi(states[j])
  {
    if |states| == 0 then None
    else if ListsFi(states[0]) then Some(states[0])
    else
      var r := FirstFiState(states[1..]);
      assert forall i :: 1 <= i < |states| ==> states[i] == states[1..][i - 1];
      if r.Some? then
        var k :| 0 <= k < |states| - 1 && r.value == states[1..][k] && ListsFi(states[1..][k])
                 && forall j :: 0 <= j < k ==> !ListsFi(states[1..][j]);
        assert forall j :: 0 <= j < k + 1 ==> !ListsFi(states[j]) by {
          forall j | 0 <= j < k + 1 ensures !ListsFi(states[j]) {
            if j > 0 { assert states[j] == states[1..][j - 1]; }
          }
        }
        r
      else r
  }

  /** invalidPrices; `"X".equals(v)` is false for a null v. */
  function InvalidPrices(prices: Option<JavaResponse>): (invalid: bool)
    ensures prices.None? ==> invalid
    ensures prices.Some? && prices.value.market != Some("DayAhead") ==> invalid
    ensures prices.Some? && prices.value.currency != Some("EUR") ==> invalid
    ensures prices.Some? && (prices.value.areaStates.None? || |prices.value.areaStates.value| == 0) ==> invalid
    ensures prices.Some? && prices.value.areaStates.Some? && FirstFiState(prices.value.areaStates.value).None? ==> invalid
    ensures !invalid <==>
              prices.Some? && prices.value.market == Some("DayAhead") && prices.value.currency == Some("EUR")
              && prices.value.areaStates.Some?
              && exists i :: 0 <= i < |prices.value.areaStates.value| && ListsFi(prices.value.areaStates.value[i])
                             && (forall j :: 0 <= j < i ==> !ListsFi(prices.value.areaStates.value[j]))
                             && prices.value.areaStates.value[i].state == Some("Final")
  {
    match prices
    case None => true
    case Some(p) =>
      if p.market != Some("DayAhead") then true
      else if p.currency != Some("EUR") then true
      else if p.areaStates.None? || |p.areaStates.value| == 0 then true
      else
        var fi := FirstFiState(p.areaStates.value);
        if fi.None? then true
        else
          FirstFiStateIndex(p.areaStates.value);
          fi.value.state != Some("Final")
  }

  /** The found state is the one at the first index that lists FI, and no other. */
  lemma FirstFiStateIndex(states: seq<JavaAreaState>)
    ensures forall i :: 0 <= i < |states| && ListsFi(states[i]) && (forall j :: 0 <= j < i ==> !ListsFi(states[j]))
              ==> FirstFiState(states) == Some(states[i])
  {
    forall i | 0 <= i < |states| && ListsFi(states[i]) && (forall j :: 0 <= j < i ==> !ListsFi(states[j]))
      ensures FirstFiState(states) == Some(states[i])
    {
      var r := FirstFiState(states);
      var k :| 0 <= k < |states| && r.value == states[k] && ListsFi(states[k])
               && forall j :: 0 <= j < k ==> !ListsFi(states[j]);
      assert k == i;
    }
  }

  /** GetPrices / GetTomorrowsPrices on the client's answer: null for rejected payloads. */
  function Validated(fetched: JavaFetch): (r: JavaFetch)
    ensures fetched.Err? ==> r == fetched
    ensures fetched.Ok? ==> r.Ok? && (r.value.Some? <==> !InvalidPrices(fetched.value))
    ensures fetched.Ok? && r.value.Some? ==> r.value == fetched.value
  {
    match fetched
    case Err(e) => Err(e)
    case Ok(p) => if InvalidPrices(p) then Ok(None) else Ok(p)
  }

  /** GetPrices(date): the day-ahead FI/EUR request for the date, then validation. */
  function GetPrices(feed: FeedRequest -> JavaFetch, date: Date): (r: JavaFetch)
    ensures r == Validated(feed(PricesService.DayAheadRequest(date)))
  {
    Validated(feed(FeedRequest(date, "DayAhead", "FI", "EUR")))
  }

  /** GetTomorrowsPrices: the same request for the day after the JVM's current date. */
  function GetTomorrowsPrices(feed: FeedRequest -> JavaFetch, today: Date): (r: JavaFetch)
    requires ValidDate(today)
    ensures r == GetPrices(feed, AddDays(today, 1))
    ensures DaysFromCivil(AddDays(today, 1)) == DaysFromCivil(today) + 1
  {
    Validated(feed(FeedRequest(AddDays(today, 1), "DayAhead", "FI", "EUR")))
  }

  /** On a payload with every field present, the Java checks accept exactly what the Go checks accept. */
  lemma AgreesWithGo(p: PriceDataResponse)
    ensures InvalidPrices(Some(ToJava(p))) == !PricesService.Acceptable(Some(p))
  {
    var j := ToJava(p);
    PricesService.AcceptableCharacterized(p);
    var js := j.areaStates.value;
    assert forall i :: 0 <= i < |js| ==> (ListsFi(js[i]) <==> "FI" in p.areaStates[i].areas);
    assert forall i :: 0 <= i < |js| ==> (js[i].state == Some("Final") <==> p.areaStates[i].state == "Final");
  }
}
