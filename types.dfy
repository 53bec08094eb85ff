/** Records and constants of the telemetry exporter (src/opentelemetry.h). */
module Types {

  /** Capacities fixed at compile time. */
  const MAX_METRICS: nat := 15
  const MAX_SPANS: nat := 50
  const MAX_SPANS_PER_BATCH: nat := 15
  const MAX_SPAN_ATTRS: nat := 10
  /** A span name is stored in `char name[32]`: at most 31 characters and a terminator. */
  const MAX_SPAN_NAME: nat := 31

  /** Eviction thresholds: 60% and 80% of MAX_SPANS, the 75% trigger in startSpan, and the
      force-end target MAX_SPANS / 2. */
  const CLEANUP_THRESHOLD: nat := MAX_SPANS * 60 / 100
  const START_CLEANUP_THRESHOLD: nat := MAX_SPANS * 3 / 4
  const LEAK_THRESHOLD: nat := MAX_SPANS * 80 / 100
  const FORCE_END_TARGET: nat := MAX_SPANS / 2

  const TWO_TO_THE_64: int := 0x1_0000_0000_0000_0000

  /** `uint64_t` */
  type u64 = x: int | 0 <= x < 0x1_0000_0000_0000_0000
  /** `uint8_t` */
  type byte = x: int | 0 <= x < 256

  datatype Option<T> = None | Some(value: T)

  function Min(a: int, b: int): int { if a < b then a else b }
  function Max(a: int, b: int): int { if a < b then b else a }

  /** A 128-bit trace id held as two 64-bit halves, `traceId[0]` (high) and `traceId[1]` (low). */
  datatype TraceId = TraceId(hi: u64, lo: u64)

  /** The value of a span attribute: the two constructors of `SpanAttribute` (isString true or false). */
  datatype AttrValue = StringValue(text: string) | DoubleValue(number: real)

  datatype SpanAttribute = SpanAttribute(key: string, value: AttrValue)

  /** One entry of the span table; `attributes` holds the first `attributeCount` entries of the
      fixed attribute array. */
  datatype Span = Span(
    name: string,
    traceId: TraceId,
    spanId: u64,
    parentSpanId: u64,
    startTimeNanos: u64,
    endTimeNanos: u64,
    attributes: seq<SpanAttribute>,
    isActive: bool)

  /** What the default constructor `Span()` leaves in an unused slot. */
  const EMPTY_SPAN: Span := Span("", TraceId(0, 0), 0, 0, 0, 0, [], false)

  datatype MetricPoint = MetricPoint(name: string, value: real, timestampNanos: u64)

  const EMPTY_METRIC: MetricPoint := MetricPoint("", 0.0, 0)

  /** The contents `lastErrorMessage` can take. Where the message is a literal of the source it is
      given beside the constructor; the HTTP ones carry the status whose text comes from the
      HTTP client. */
  datatype ErrorKind =
    | Unset                        // "" (the String default before begin)
    | NoError                      // "None"
    | NoMetrics                    // "No metrics to send"
    | WifiNotConnected             // "WiFi not connected"
    | MetricsPayloadOverflow       // "Failed to create payload (buffer overflow)"
    | WifiDisconnectedBeforeSend   // "WiFi disconnected before send"
    | MetricsHttpError(code: int)  // the response body, or "HTTP Error <code>"
    | NoEndpoint                   // "No endpoint specified"
    | TracePayloadFailed           // "Failed to create trace payload"
    | TracesHttpError(code: int)   // http.errorToString(code)
}
