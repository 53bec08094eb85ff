/** The OTLP/HTTP JSON documents the exporter writes (the "JSON Protobuf Encoding" of the
    OpenTelemetry Protocol: ids as lower-case hex strings, 64-bit times as decimal strings), and
    the adaptive batch size of the trace payload. Every piece is the text one `appendToBuffer`
    call writes; strings are inserted as they are, without escaping. */
module Otlp {
  import opened Types
  import opened Format
  import opened JsonBuffer
  import Arena

  /** The resource attributes written at the head of both documents. */
  datatype Resource = Resource(serviceName: string, serviceVersion: string, ssid: string)

  const TRACE_OPEN: string := "{\"resourceSpans\":[{\"resource\":{\"attributes\":["
  const TRACE_SCOPE: string := "]},\"scopeSpans\":[{\"scope\":{\"name\":\"iototeldemo\"},\"spans\":["
  const METRICS_OPEN: string := "{\"resourceMetrics\":[{\"resource\":{\"attributes\":["
  const METRICS_SCOPE: string := "]},\"scopeMetrics\":[{\"metrics\":["
  const DOC_CLOSE: string := "]}]}]}"
  const PARENT_KEY: string := "\"parentSpanId\":\""
  const NAME_KEY: string := "\"name\":\""
  const ATTRS_OPEN: string := ",\"attributes\":["
  const ATTRS_CLOSE: string := "]"
  const SPAN_CLOSE: string := "}"

  function ServiceNameAttr(name: string): string {
    "{\"key\":\"service.name\",\"value\":{\"stringValue\":\"" + name + "\"}},"
  }

  function ServiceVersionAttr(version: string): string {
    "{\"key\":\"service.version\",\"value\":{\"stringValue\":\"" + version + "\"}},"
  }

  function SsidAttr(ssid: string): string {
    "{\"key\":\"wifi.ssid\",\"value\":{\"stringValue\":\"" + ssid + "\"}}"
  }

  function ResourceAttrs(res: Resource): string {
    ServiceNameAttr(res.serviceName) + ServiceVersionAttr(res.serviceVersion) + SsidAttr(res.ssid)
  }

  /** The five pieces that open both documents, each written by its own appendToBuffer (lines
      128-153 and 259-285): the document opening, the three resource attributes, the scope
      opening. */
  function HeaderPieces(open: string, res: Resource, scope: string): seq<string> {
    [open, ServiceNameAttr(res.serviceName), ServiceVersionAttr(res.serviceVersion), SsidAttr(res.ssid), scope]
  }

  lemma HeaderText(open: string, res: Resource, scope: string)
    ensures Concat(HeaderPieces(open, res, scope)) == open + ResourceAttrs(res) + scope
  {
    Concat5(open, ServiceNameAttr(res.serviceName), ServiceVersionAttr(res.serviceVersion), SsidAttr(res.ssid), scope);
  }

  /** The five appends that open a document (the envelope, the three resource attributes and the
      scope) into an empty buffer: they succeed exactly when the whole header fits. */
  function WriteHeader(open: string, res: Resource, scope: string): (r: Appended)
    ensures r.ok <==> |open + ResourceAttrs(res) + scope| < CAPACITY
    ensures r.ok ==> r.content == open + ResourceAttrs(res) + scope
    ensures |r.content| < CAPACITY
  {
    HeaderText(open, res, scope);
    AppendEach([], HeaderPieces(open, res, scope))
  }

  /** Everything a trace document holds before its first span. */
  function TraceHeader(res: Resource): string {
    TRACE_OPEN + ResourceAttrs(res) + TRACE_SCOPE
  }

  /** Everything a metrics document holds before its first data point. */
  function MetricsHeader(res: Resource): string {
    METRICS_OPEN + ResourceAttrs(res) + METRICS_SCOPE
  }

  /** One gauge data point; `render` is the `%.2f` rendering of a double. */
  function MetricJson(render: real -> string, m: MetricPoint): string {
    "{\"name\":\"" + m.name + "\",\"gauge\":{\"dataPoints\":[{\"timeUnixNano\":\""
      + Decimal(m.timestampNanos) + "\",\"asDouble\":" + render(m.value) + "}]}}"
  }

  function MetricJsons(render: real -> string, ms: seq<MetricPoint>): (r: seq<string>)
    ensures |r| == |ms|
    ensures forall k :: 0 <= k < |ms| ==> r[k] == MetricJson(render, ms[k])
  {
    seq(|ms|, k requires 0 <= k < |ms| => MetricJson(render, ms[k]))
  }

  function MetricsDoc(res: Resource, render: real -> string, ms: seq<MetricPoint>): string {
    MetricsHeader(res) + Join(MetricJsons(render, ms)) + DOC_CLOSE
  }

  /** One span attribute, a string or a double value. */
  function AttrJson(render: real -> string, a: SpanAttribute): string {
    match a.value
    case StringValue(text) => "{\"key\":\"" + a.key + "\",\"value\":{\"stringValue\":\"" + text + "\"}}"
    case DoubleValue(x) => "{\"key\":\"" + a.key + "\",\"value\":{\"doubleValue\":" + render(x) + "}}"
  }

  function AttrJsons(render: real -> string, attrs: seq<SpanAttribute>): (r: seq<string>)
    ensures |r| == |attrs|
    ensures forall k :: 0 <= k < |attrs| ==> r[k] == AttrJson(render, attrs[k])
  {
    seq(|attrs|, k requires 0 <= k < |attrs| => AttrJson(render, attrs[k]))
  }

  /** The trace id (high half first) and the span id. */
  function SpanHead(s: Span): string {
    "{\"traceId\":\"" + Hex16(s.traceId.hi) + Hex16(s.traceId.lo) + "\",\"spanId\":\"" + Hex16(s.spanId) + "\","
  }

  /** The parent id, written only when there is one. */
  function ParentPiece(s: Span): string {
    if s.parentSpanId != 0 then PARENT_KEY + Hex16(s.parentSpanId) + "\"," else ""
  }

  function SpanTimes(s: Span): string {
    NAME_KEY + s.name + "\",\"startTimeUnixNano\":\"" + Decimal(s.startTimeNanos)
      + "\",\"endTimeUnixNano\":\"" + Decimal(s.endTimeNanos) + "\",\"kind\":\"SPAN_KIND_INTERNAL\""
  }

  /** The attribute list, written only when the span has attributes. */
  function AttrBlock(render: real -> string, attrs: seq<SpanAttribute>): string {
    if |attrs| > 0 then ATTRS_OPEN + Join(AttrJsons(render, attrs)) + ATTRS_CLOSE else ""
  }

  function SpanJson(render: real -> string, s: Span): string {
    SpanHead(s) + ParentPiece(s) + SpanTimes(s) + AttrBlock(render, s.attributes) + SPAN_CLOSE
  }

  function SpanJsons(render: real -> string, ps: seq<Span>): (r: seq<string>)
    ensures |r| == |ps|
    ensures forall k :: 0 <= k < |ps| ==> r[k] == SpanJson(render, ps[k])
  {
    seq(|ps|, k requires 0 <= k < |ps| => SpanJson(render, ps[k]))
  }

  function TraceDoc(res: Resource, render: real -> string, ps: seq<Span>): string {
    TraceHeader(res) + Join(SpanJsons(render, ps)) + DOC_CLOSE
  }

  /** The encodings of a prefix are the prefix of the encodings. */
  lemma SpanJsonsPrefix(render: real -> string, ps: seq<Span>, i: nat)
    requires i <= |ps|
    ensures SpanJsons(render, ps[..i]) == SpanJsons(render, ps)[..i]
  {
  }

  lemma MetricJsonsPrefix(render: real -> string, ms: seq<MetricPoint>, i: nat)
    requires i <= |ms|
    ensures MetricJsons(render, ms[..i]) == MetricJsons(render, ms)[..i]
  {
  }

  lemma AttrJsonsPrefix(render: real -> string, attrs: seq<SpanAttribute>, i: nat)
    requires i <= |attrs|
    ensures AttrJsons(render, attrs[..i]) == AttrJsons(render, attrs)[..i]
  {
  }

  /** The piece `y` of `x + y + z` sits at offset |x|. */
  lemma Middle(x: string, y: string, z: string)
    ensures (x + y + z)[|x|..|x| + |y|] == y
  {
  }

  lemma {:induction false} HeadLayout(s: Span)
    ensures |SpanHead(s)| == 74
    ensures SpanHead(s)[12..28] == Hex16(s.traceId.hi) && SpanHead(s)[28..44] == Hex16(s.traceId.lo)
    ensures SpanHead(s)[56..72] == Hex16(s.spanId)
  {
    var open, hi, lo := "{\"traceId\":\"", Hex16(s.traceId.hi), Hex16(s.traceId.lo);
    var mid, id, close := "\",\"spanId\":\"", Hex16(s.spanId), "\",";
    assert SpanHead(s) == open + hi + (lo + mid + id + close);
    Middle(open, hi, lo + mid + id + close);
    assert SpanHead(s) == (open + hi) + lo + (mid + id + close);
    Middle(open + hi, lo, mid + id + close);
    assert SpanHead(s) == (open + hi + lo + mid) + id + close;
    Middle(open + hi + lo + mid, id, close);
  }

  /** Slices of `a + b` that fall inside `a`, or inside `b`. */
  lemma SliceLeft(a: string, b: string, i: nat, j: nat)
    requires i <= j <= |a|
    ensures (a + b)[i..j] == a[i..j]
  {
  }

  lemma SliceRight(a: string, b: string, i: nat, j: nat)
    requires i <= j <= |b|
    ensures (a + b)[|a| + i..|a| + j] == b[i..j]
  {
  }

  /** A piece that starts with `key` puts `key` at its own offset. */
  lemma KeyAt(a: string, b: string, c: string, key: string)
    requires |b| >= |key| && b[..|key|] == key
    ensures (a + b + c)[|a|..|a| + |key|] == key
  {
    assert (a + b + c)[|a|..|a| + |key|] == b[..|key|];
  }

  lemma {:induction false} TimesLayout(s: Span)
    ensures |SpanTimes(s)| >= 16 && SpanTimes(s)[..8] == NAME_KEY
  {
    var rest := s.name + "\",\"startTimeUnixNano\":\"" + Decimal(s.startTimeNanos)
      + "\",\"endTimeUnixNano\":\"" + Decimal(s.endTimeNanos) + "\",\"kind\":\"SPAN_KIND_INTERNAL\"";
    assert SpanTimes(s) == NAME_KEY + rest;
    SliceLeft(NAME_KEY, rest, 0, 8);
  }

  /** The text of five pieces begins with the first piece. */
  lemma LeadingPiece(a: string, b: string, c: string, d: string, e: string)
    ensures |a + b + c + d + e| >= |a| && (a + b + c + d + e)[..|a|] == a
  {
    assert a + b + c + d + e == a + (b + c + d + e);
  }

  lemma SliceOfPrefix(j: string, head: string, i: nat, k: nat)
    requires |head| <= |j| && j[..|head|] == head && i <= k <= |head|
    ensures j[i..k] == head[i..k]
  {
    forall x | i <= x < k ensures j[x] == head[x] {
      assert head[x] == j[..|head|][x];
    }
  }

  /** Where the ids sit in a span object: the 32 trace-id digits from offset 12 and the 16
      span-id digits from offset 56. */
  lemma {:induction false} SpanJsonIds(render: real -> string, s: Span)
    ensures var j := SpanJson(render, s);
            |j| >= 90
            && j[12..28] == Hex16(s.traceId.hi) && j[28..44] == Hex16(s.traceId.lo)
            && j[56..72] == Hex16(s.spanId)
  {
    var j := SpanJson(render, s);
    var head := SpanHead(s);
    HeadLayout(s);
    TimesLayout(s);
    LeadingPiece(head, ParentPiece(s), SpanTimes(s), AttrBlock(render, s.attributes), SPAN_CLOSE);
    SliceOfPrefix(j, head, 12, 28);
    SliceOfPrefix(j, head, 28, 44);
    SliceOfPrefix(j, head, 56, 72);
  }

  lemma ParentAt(head: string, digits: string, tail: string)
    requires |head| == 74 && |digits| == 16
    ensures var j := head + (PARENT_KEY + digits + "\",") + tail;
            j[74..90] == PARENT_KEY && j[90..106] == digits
  {
    var j := head + (PARENT_KEY + digits + "\",") + tail;
    assert j == (head + PARENT_KEY) + digits + ("\"," + tail);
    KeyAt(head, PARENT_KEY, digits + "\"," + tail, PARENT_KEY);
    KeyAt(head + PARENT_KEY, digits, "\"," + tail, digits);
  }

  /** A child span has the parent key at offset 74 and the parent's 16 digits after it. */
  lemma {:induction false} SpanJsonParent(render: real -> string, s: Span)
    requires s.parentSpanId != 0
    ensures var j := SpanJson(render, s);
            |j| >= 106 && j[74..90] == PARENT_KEY && j[90..106] == Hex16(s.parentSpanId)
  {
    var head := SpanHead(s);
    var tail := SpanTimes(s) + AttrBlock(render, s.attributes) + SPAN_CLOSE;
    assert SpanJson(render, s) == head + (PARENT_KEY + Hex16(s.parentSpanId) + "\",") + tail;
    HeadLayout(s);
    ParentAt(head, Hex16(s.parentSpanId), tail);
  }

  /** A root span has the name key at offset 74. */
  lemma {:induction false} SpanJsonRoot(render: real -> string, s: Span)
    requires s.parentSpanId == 0
    ensures var j := SpanJson(render, s);
            |j| >= 82 && j[74..82] == NAME_KEY
  {
    var j := SpanJson(render, s);
    var head := SpanHead(s);
    var times := SpanTimes(s);
    var tail := AttrBlock(render, s.attributes) + SPAN_CLOSE;
    assert ParentPiece(s) == [];
    assert j == head + times + tail;
    HeadLayout(s);
    TimesLayout(s);
    KeyAt(head, times, tail, NAME_KEY);
  }

  /** The ids in a span object decode back to the span's ids, and the parent key is present exactly
      when the span has a parent: the ids of an exported span can be recovered from its text. */
  lemma SpanJsonDecodesIds(render: real -> string, s: Span)
    ensures var j := SpanJson(render, s);
            |j| >= 90
            && HexValue(j[12..28]) == s.traceId.hi && HexValue(j[28..44]) == s.traceId.lo
            && HexValue(j[56..72]) == s.spanId
            && (s.parentSpanId != 0 <==> j[74..90] == PARENT_KEY)
            && (s.parentSpanId != 0 ==> HexValue(j[90..106]) == s.parentSpanId)
  {
    var j := SpanJson(render, s);
    SpanJsonIds(render, s);
    if s.parentSpanId != 0 {
      SpanJsonParent(render, s);
    } else {
      SpanJsonRoot(render, s);
    }
    Hex16RoundTrip(s.traceId.hi);
    Hex16RoundTrip(s.traceId.lo);
    Hex16RoundTrip(s.spanId);
    Hex16RoundTrip(s.parentSpanId);
    if s.parentSpanId == 0 {
      assert j[74..90][1] == j[74..82][1] == 'n';
      assert PARENT_KEY[1] == 'p';
    }
  }

  /** Lines 203-225: min(completed, MAX_SPANS_PER_BATCH), cut further only when the average
      number of attributes per completed span exceeds 15, and then never below 3. The float
      average and its truncation are the integer quotient here: both operands are small. */
  function BatchSize(completed: nat, totalAttrs: nat): (n: nat)
    requires completed > 0
    ensures 1 <= n <= Min(completed, MAX_SPANS_PER_BATCH)
    ensures Min(completed, 3) <= n
    ensures totalAttrs <= 15 * completed ==> n == Min(completed, MAX_SPANS_PER_BATCH)
  {
    var spansToSend := Min(completed, MAX_SPANS_PER_BATCH);
    if totalAttrs > 15 * completed then
      var maxAttributesInBatch := 3000 / 100;
      var maxSpansToSend := Max(3, maxAttributesInBatch / Max(1, totalAttrs / completed));
      Min(spansToSend, maxSpansToSend)
    else
      spansToSend
  }

  /** With at most MAX_SPAN_ATTRS attributes per span the density cut never fires. */
  lemma DensityCutInert(ss: seq<Span>)
    requires Arena.Bounded(ss) && Arena.CountCompleted(ss) > 0
    ensures BatchSize(Arena.CountCompleted(ss), Arena.TotalAttrs(ss))
         == Min(Arena.CountCompleted(ss), MAX_SPANS_PER_BATCH)
  {
    Arena.TotalAttrsBounded(ss);
  }
}
