/**
 * Records shared by the service, the repositories and the HTTP resources: the stored
 * price row and the upstream day-ahead payload, in its Go and its Java shape.
 *
 * Instants are whole seconds since 1970-01-01T00:00:00Z.  Prices are opaque values:
 * the model never computes with them, it only copies them.
 */
module Model {
  import opened Wrappers
  import opened Civil

  /** One row of price_history: a delivery interval and its FI price. */
  datatype PriceHistoryEntry = PriceHistoryEntry(price: real, deliveryStart: int, deliveryEnd: int)

  /** The query the service sends upstream. */
  datatype FeedRequest = FeedRequest(date: Date, market: string, deliveryArea: string, currency: string)

  // ---- Go payload (nordpool.PriceDataResponse) ----

  datatype AreaState = AreaState(state: string, areas: seq<string>)

  datatype MultiAreaEntry = MultiAreaEntry(deliveryStart: int, deliveryEnd: int, entryPerArea: map<string, real>)

  datatype PriceDataResponse = PriceDataResponse(
    market: string,
    currency: string,
    multiAreaEntries: seq<MultiAreaEntry>,
    areaStates: seq<AreaState>)

  /** The Go client's answer: an error, or a payload pointer that may be nil. */
  type GoFetch = Result<Option<PriceDataResponse>, string>

  // ---- Java payload (NordPoolClient records); every reference field may be null ----

  datatype JavaAreaState = JavaAreaState(state: Option<string>, areas: Option<seq<string>>)

  /** PriceDataResponseData: the only area price the Java record keeps is FI. */
  datatype JavaAreaPrices = JavaAreaPrices(fi: Option<real>)

  datatype JavaEntry = JavaEntry(deliveryStart: int, deliveryEnd: int, entryPerArea: Option<JavaAreaPrices>)

  datatype JavaResponse = JavaResponse(
    market: Option<string>,
    currency: Option<string>,
    multiAreaEntries: Option<seq<JavaEntry>>,
    areaStates: Option<seq<JavaAreaState>>)

  /** The Java client's answer: a thrown exception, or a payload reference that may be null. */
  type JavaFetch = Result<Option<JavaResponse>, string>

  /** The Java records that the same JSON document decodes to, when it has every field. */
  function ToJava(p: PriceDataResponse): (j: JavaResponse)
    ensures j.market == Some(p.market) && j.currency == Some(p.currency)
    ensures j.areaStates.Some? && |j.areaStates.value| == |p.areaStates|
    ensures forall i :: 0 <= i < |p.areaStates| ==>
              j.areaStates.value[i] == JavaAreaState(Some(p.areaStates[i].state), Some(p.areaStates[i].areas))
  {
    JavaResponse(
      Some(p.market),
      Some(p.currency),
      Some(seq(|p.multiAreaEntries|, i requires 0 <= i < |p.multiAreaEntries| =>
        var e := p.multiAreaEntries[i];
        JavaEntry(e.deliveryStart, e.deliveryEnd,
                  Some(JavaAreaPrices(if "FI" in e.entryPerArea then Some(e.entryPerArea["FI"]) else None))))),
      Some(seq(|p.areaStates|, i requires 0 <= i < |p.areaStates| =>
        JavaAreaState(Some(p.areaStates[i].state), Some(p.areaStates[i].areas)))))
  }
}
