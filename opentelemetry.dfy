/** The exporter object: the fixed span table and metric batch, the JSON buffer, and the
    operations an application calls. Each method is proved to perform the transition of the value
    model (Arena, Otlp, Exporter) on the state it owns. The collector is the scripted sequence of
    status codes `replies` and the log of requests `posts`; WiFi readings, the clock and the random
    bytes are parameters. */
module Telemetry {
  import opened Types
  import opened Format
  import opened Ids
  import opened JsonBuffer
  import opened Arena
  import opened Otlp
  import opened Exporter

  class OpenTelemetry {
    /** `Span spans[MAX_SPANS]`; the table is the first spanCount entries. */
    const spans: array<Span>
    /** `MetricPoint batchMetrics[MAX_METRICS]`; the batch is the first metricCount entries. */
    const batchMetrics: array<MetricPoint>
    /** WIFI_SSID and the `%.2f` rendering of a double, fixed for the program. */
    const wifiSsid: string
    const renderDouble: real -> string

    var serviceName: string
    var serviceVersion: string
    var metricsEndpoint: string
    var tracesEndpoint: string
    var lastError: ErrorKind
    var lastHttpCode: int
    var metricCount: nat
    var spanCount: nat
    var activeSpanCount: nat
    var currentTraceId: TraceId
    /** The committed text `jsonBuffer[0..pos)`. */
    var jsonBuffer: string
    /** The collector: the status codes it will answer, and the requests it has received. */
    var replies: seq<int>
    var posts: seq<Request>

    /** The counters stay within the arrays, activeSpanCount counts the active entries, every
        span holds at most MAX_SPAN_ATTRS attributes and the buffer keeps room for its NUL. */
    ghost predicate Valid()
      reads this`spanCount, this`metricCount, this`activeSpanCount, this`jsonBuffer, spans
    {
      spans.Length == MAX_SPANS && batchMetrics.Length == MAX_METRICS
      && spanCount <= MAX_SPANS && metricCount <= MAX_METRICS
      && activeSpanCount == CountActive(spans[..spanCount])
      && Bounded(spans[..spanCount])
      && |jsonBuffer| < CAPACITY
    }

    ghost function Table(): seq<Span>
      reads this`spanCount, spans
      requires spanCount <= spans.Length
    {
      spans[..spanCount]
    }

    ghost function Batch(): seq<MetricPoint>
      reads this`metricCount, batchMetrics
      requires metricCount <= batchMetrics.Length
    {
      batchMetrics[..metricCount]
    }

    ghost function LinkState(): Link
      reads this`replies, this`posts, this`lastHttpCode, this`lastError
    {
      Link(replies, posts, lastHttpCode, lastError)
    }

    ghost function Cfg(): Config
      reads this`serviceName, this`serviceVersion, this`metricsEndpoint, this`tracesEndpoint
    {
      Config(Resource(serviceName, serviceVersion, wifiSsid), metricsEndpoint, tracesEndpoint, renderDouble)
    }

    /** The constructor (lines 477-482): the configured defaults, no error text yet, empty
        table and batch, trace id zero, unused slots default-constructed. */
    constructor (ssid: string, render: real -> string, defaultServiceName: string,
                 defaultServiceVersion: string, defaultMetricsUrl: string, defaultTracesUrl: string,
                 collectorReplies: seq<int>)
      ensures Valid()
      ensures Table() == [] && Batch() == [] && activeSpanCount == 0
      ensures serviceName == defaultServiceName && serviceVersion == defaultServiceVersion
      ensures metricsEndpoint == defaultMetricsUrl && tracesEndpoint == defaultTracesUrl
      ensures wifiSsid == ssid && renderDouble == render
      ensures lastError == Unset && lastHttpCode == 0 && currentTraceId == TraceId(0, 0)
      ensures replies == collectorReplies && posts == []
      ensures fresh(spans) && fresh(batchMetrics)
    {
      spans := new Span[MAX_SPANS](_ => EMPTY_SPAN);
      batchMetrics := new MetricPoint[MAX_METRICS](_ => EMPTY_METRIC);
      wifiSsid := ssid;
      renderDouble := render;
      serviceName := defaultServiceName;
      serviceVersion := defaultServiceVersion;
      metricsEndpoint := defaultMetricsUrl;
      tracesEndpoint := defaultTracesUrl;
      lastError := Unset;
      lastHttpCode := 0;
      metricCount := 0;
      spanCount := 0;
      activeSpanCount := 0;
      currentTraceId := TraceId(0, 0);
      jsonBuffer := [];
      replies := collectorReplies;
      posts := [];
    }

    /** begin (lines 486-510): the traces endpoint falls back to the metrics endpoint when none
        (or an empty one) is given; the table and the batch are emptied and a fresh trace id is
        drawn from sixteen random bytes. */
    method Begin(svcName: string, svcVersion: string, metEndpoint: string, traceEndpoint: string,
                 randomHi: seq<byte>, randomLo: seq<byte>)
      requires Valid() && |randomHi| == 8 && |randomLo| == 8
      modifies this`serviceName, this`serviceVersion, this`metricsEndpoint, this`tracesEndpoint
      modifies this`lastError, this`lastHttpCode, this`metricCount, this`spanCount
      modifies this`activeSpanCount, this`currentTraceId
      ensures Valid() && spanCount == 0 && metricCount == 0
      ensures Cfg() == Config(Resource(svcName, svcVersion, wifiSsid), metEndpoint,
                              if traceEndpoint != [] then traceEndpoint else metEndpoint, renderDouble)
      ensures lastError == NoError && lastHttpCode == 0
      ensures currentTraceId == TraceIdOf(randomHi, randomLo)
    {
      var traceId := NewTraceId(randomHi, randomLo);
      Configure(svcName, svcVersion, metEndpoint, traceEndpoint);
      Restart(traceId);
    }

    /** The configuration half of begin (lines 487-496). */
    method Configure(svcName: string, svcVersion: string, metEndpoint: string, traceEndpoint: string)
      modifies this`serviceName, this`serviceVersion, this`metricsEndpoint, this`tracesEndpoint
      ensures Cfg() == Config(Resource(svcName, svcVersion, wifiSsid), metEndpoint,
                              if traceEndpoint != [] then traceEndpoint else metEndpoint, renderDouble)
    {
      serviceName := svcName;
      serviceVersion := svcVersion;
      metricsEndpoint := metEndpoint;
      if traceEndpoint != [] {
        tracesEndpoint := traceEndpoint;
      } else {
        tracesEndpoint := metEndpoint;
      }
    }

    /** The state half of begin (lines 498-506): errors cleared, table and batch emptied, the
        given trace id made current. */
    method Restart(traceId: TraceId)
      requires Valid()
      modifies this`lastError, this`lastHttpCode, this`metricCount, this`spanCount
      modifies this`activeSpanCount, this`currentTraceId
      ensures Valid() && spanCount == 0 && metricCount == 0
      ensures lastError == NoError && lastHttpCode == 0 && currentTraceId == traceId
    {
      lastError := NoError;
      lastHttpCode := 0;
      metricCount := 0;
      spanCount := 0;
      activeSpanCount := 0;
      currentTraceId := traceId;
    }

    /** addMetric (lines 512-520): refused once the batch holds MAX_METRICS points. */
    method AddMetric(name: string, value: real, timestampNanos: u64) returns (added: bool)
      requires Valid()
      modifies this`metricCount, batchMetrics
      ensures Valid()
      ensures added <==> old(metricCount) < MAX_METRICS
      ensures Batch() == if added then old(Batch()) + [MetricPoint(name, value, timestampNanos)] else old(Batch())
    {
      if metricCount >= MAX_METRICS {
        return false;
      }
      batchMetrics[metricCount] := MetricPoint(name, value, timestampNanos);
      metricCount := metricCount + 1;
      added := true;
    }

    /** startNewTrace (lines 523-532). */
    method StartNewTrace(randomHi: seq<byte>, randomLo: seq<byte>)
      requires |randomHi| == 8 && |randomLo| == 8
      modifies this`currentTraceId
      ensures currentTraceId == TraceIdOf(randomHi, randomLo)
    {
      currentTraceId := NewTraceId(randomHi, randomLo);
    }

    /** The search loop shared by both addSpanAttribute overloads and endSpan (lines 584-585,
        638-639, 690-691): the first entry carrying the id. */
    method FindSpan(spanId: u64) returns (found: Option<nat>)
      requires Valid()
      ensures found == FindFirst(Table(), spanId)
    {
      var i := 0;
      while i < spanCount
        invariant 0 <= i <= spanCount
        invariant forall k :: 0 <= k < i ==> spans[k].spanId != spanId
      {
        if spans[i].spanId == spanId {
          return Some(i);
        }
        i := i + 1;
      }
      found := None;
    }

    /** Both addSpanAttribute overloads (lines 576-627 and 630-681), the value telling them
        apart: id 0 is refused; otherwise the first entry with the id decides, and the attribute
        is appended when that span is still active and has fewer than MAX_SPAN_ATTRS. */
    method AddSpanAttribute(spanId: u64, key: string, value: AttrValue) returns (added: bool)
      requires Valid()
      modifies spans
      ensures Valid()
      ensures var t := old(Table());
              var f := FindFirst(t, spanId);
              (added <==> spanId != 0 && f.Some? && t[f.value].isActive
                          && |t[f.value].attributes| < MAX_SPAN_ATTRS)
              && Table() == if added
                            then t[f.value := t[f.value].(attributes := t[f.value].attributes + [SpanAttribute(key, value)])]
                            else t
    {
      if spanId == 0 {
        return false;
      }
      var found := FindSpan(spanId);
      if found.None? {
        return false;
      }
      var i := found.value;
      if !spans[i].isActive || |spans[i].attributes| >= MAX_SPAN_ATTRS {
        return false;
      }
      ghost var t := Table();
      var s := spans[i].(attributes := spans[i].attributes + [SpanAttribute(key, value)]);
      spans[i] := s;
      assert Table() == t[i := s];
      CountActiveUpdate(t, i, s);
      BoundedUpdate(t, i, s);
      added := true;
    }

    /** endSpan (lines 684-715): id 0 is refused; otherwise the first entry with the id decides,
        and an active span is ended at `now`. */
    method EndSpan(spanId: u64, now: u64) returns (ended: bool)
      requires Valid()
      modifies this`activeSpanCount, spans
      ensures Valid()
      ensures var t := old(Table());
              var f := FindFirst(t, spanId);
              (ended <==> spanId != 0 && f.Some? && t[f.value].isActive)
              && Table() == (if ended then t[f.value := t[f.value].(isActive := false, endTimeNanos := now)] else t)
              && activeSpanCount == old(activeSpanCount) - (if ended then 1 else 0)
    {
      if spanId == 0 {
        return false;
      }
      var found := FindSpan(spanId);
      if found.None? {
        return false;
      }
      var i := found.value;
      if !spans[i].isActive {
        return false;
      }
      EndAt(i, now);
      ended := true;
    }

    /** The loop counting completed spans (lines 192-197; also 722-729 and 938-943). */
    method CountCompletedSpans() returns (count: nat)
      requires Valid()
      ensures count == CountCompleted(Table())
    {
      ghost var t := Table();
      count := 0;
      var i := 0;
      while i < spanCount
        invariant 0 <= i <= spanCount
        invariant count == CountCompleted(t[..i])
      {
        CountsStep(t, i);
        if !spans[i].isActive && spans[i].endTimeNanos > 0 {
          count := count + 1;
        }
        i := i + 1;
      }
      assert t[..spanCount] == t;
    }

    /** The loop summing the attributes of completed spans (lines 205-211). */
    method TotalCompletedAttributes() returns (total: nat)
      requires Valid()
      ensures total == TotalAttrs(Table())
    {
      ghost var t := Table();
      total := 0;
      var i := 0;
      while i < spanCount
        invariant 0 <= i <= spanCount
        invariant total == TotalAttrs(t[..i])
      {
        CountsStep(t, i);
        if !spans[i].isActive && spans[i].endTimeNanos > 0 {
          total := total + |spans[i].attributes|;
        }
        i := i + 1;
      }
      assert t[..spanCount] == t;
    }

    /** createBatchPayload (lines 125-182): the metrics document written into jsonBuffer from
        position 0: the header, each data point behind a comma but the first, the closing
        brackets. It returns false at the first piece that does not fit, so it succeeds exactly
        when the whole document fits. */
    method CreateBatchPayload() returns (ok: bool)
      requires Valid()
      modifies this`jsonBuffer
      ensures Valid()
      ensures ok <==> |MetricsDoc(Cfg().resource, renderDouble, Batch())| < CAPACITY
      ensures ok ==> jsonBuffer == MetricsDoc(Cfg().resource, renderDouble, Batch())
    {
      // The proof uses only the contracts of these document texts (costly literals), counts.
      hide Concat, HeaderPieces, ResourceAttrs, Join, MetricJsons, MetricJson, CountActive, Bounded;
      var res := Resource(serviceName, serviceVersion, wifiSsid);
      HeaderText(METRICS_OPEN, res, METRICS_SCOPE);
      var r := AppendDocument(HeaderPieces(METRICS_OPEN, res, METRICS_SCOPE),
                              MetricJsons(renderDouble, batchMetrics[..metricCount]), DOC_CLOSE);
      jsonBuffer := r.content;
      ok := r.ok;
    }

    /** The text of one span in createTracePayload (lines 293-350): the ids, the parent id when
        there is one, the name and times, the attribute list when there are attributes, the
        closing brace, each appended on its own after `buf`. It succeeds exactly when the whole
        text of the span fits. */
    method AppendSpan(buf: string, s: Span) returns (ok: bool, out: string)
      requires |buf| < CAPACITY
      ensures ok <==> |buf| + |SpanJson(renderDouble, s)| < CAPACITY
      ensures ok ==> out == buf + SpanJson(renderDouble, s)
      ensures |out| < CAPACITY
    {
      // The proof uses only the contracts of these document texts (costly literals).
      hide SpanHead, ParentPiece, SpanTimes, AttrJsons, Join, Concat;
      // ParentPiece is empty without a parent, so its append is the source's skipped one.
      Concat3(SpanHead(s), ParentPiece(s), SpanTimes(s));
      ghost var text := SpanHead(s) + ParentPiece(s) + SpanTimes(s);
      var r := AppendEach(buf, [SpanHead(s), ParentPiece(s), SpanTimes(s)]);
      ghost var block := AttrBlock(renderDouble, s.attributes);
      if |s.attributes| == 0 {
        assert block == [];
      } else if r.ok {
        var attrs := AttrJsons(renderDouble, s.attributes);
        ghost var pre := r.content;
        r := AppendToBuffer(r.content, ATTRS_OPEN);
        if r.ok {
          r := AppendList(r.content, attrs);
          if r.ok {
            r := AppendToBuffer(r.content, ATTRS_CLOSE);
          }
        }
        AppendAssoc(pre, ATTRS_OPEN, Join(attrs));
        AppendAssoc(pre, ATTRS_OPEN + Join(attrs), ATTRS_CLOSE);
        AppendAssoc(buf, text, block);
      }
      text := text + block;
      if r.ok {
        r := AppendToBuffer(r.content, SPAN_CLOSE);
        AppendAssoc(buf, text, SPAN_CLOSE);
      }
      ok, out := r.ok, r.content;
    }

    /** Commits `text` as the buffer's contents (the `pos` the appends leave behind). */
    method SetBuffer(text: string)
      requires Valid() && |text| < CAPACITY
      modifies this`jsonBuffer
      ensures Valid() && jsonBuffer == text
    {
      jsonBuffer := text;
    }

    /** createTracePayload (lines 185-364). With no completed span it fails and changes nothing.
        Otherwise it writes the document of the selected spans (the first BatchSize completed
        ones, in table order) into jsonBuffer and stamps each `endTimeNanos = 1` once its text is
        complete: outcome, document and stamping are those of TracePayload. */
    method CreateTracePayload() returns (ok: bool)
      requires Valid()
      modifies this`jsonBuffer, spans
      ensures Valid()
      ensures CountCompleted(old(Table())) == 0 ==>
                !ok && Table() == old(Table()) && jsonBuffer == old(jsonBuffer)
      ensures CountCompleted(old(Table())) > 0 ==>
                var p := TracePayload(old(Cfg()), old(Table()));
                ok == p.ok && Table() == MarkSent(old(Table()), p.marked) && (ok ==> jsonBuffer == p.body)
    {
      var completed := CountCompletedSpans();
      if completed == 0 {
        return false;
      }
      var totalAttributes := TotalCompletedAttributes();
      var toSend := BatchSize(completed, totalAttributes);
      ok := WriteTrace(toSend);
    }

    /** createTracePayload from the header on (lines 255-364), once toSend is known: the trace
        document goes into jsonBuffer, and outcome, text and stamping are those of TracePayload. */
    method WriteTrace(toSend: nat) returns (ok: bool)
      requires Valid() && CountCompleted(Table()) > 0
      requires toSend == BatchSize(CountCompleted(Table()), TotalAttrs(Table()))
      modifies this`jsonBuffer, spans
      ensures Valid()
      ensures var p := TracePayload(old(Cfg()), old(Table()));
              ok == p.ok && Table() == MarkSent(old(Table()), p.marked) && (ok ==> jsonBuffer == p.body)
    {
      // The proof uses only the contracts of these document texts (costly literals), table passes, counts.
      hide TracePayload, PayloadOf, SpanJsons, Picks, MarkSent, CountCompleted, TotalAttrs, BatchSize, CountActive, Bounded;
      ghost var t, cfg := Table(), Cfg();
      var r := WriteHeader(TRACE_OPEN, Resource(serviceName, serviceVersion, wifiSsid), TRACE_SCOPE);
      if r.ok {
        ok := WriteSpansInto(r.content, toSend);
      } else {
        SetBuffer(r.content);
        ok := false;
      }
      TraceAssembled(cfg, t, toSend, r, ok, jsonBuffer, Table());
    }

    /** The span loop after the header `header`, committed to jsonBuffer. */
    method WriteSpansInto(header: string, toSend: nat) returns (ok: bool)
      requires Valid() && |header| < CAPACITY
      modifies this`jsonBuffer, spans
      ensures Valid()
      ensures var p := PayloadOf(header, SpanJsons(renderDouble, Picks(old(Table()), toSend)));
              ok == p.ok && Table() == MarkSent(old(Table()), p.marked) && (ok ==> jsonBuffer == p.body)
    {
      var doc;
      ok, doc := WriteSelectedSpans(header, toSend);
      SetBuffer(doc);
    }

    /** The span loop of createTracePayload (lines 222-364) after the header `header`: completed
        spans are written in table order until toSend of them are, each behind a comma but the
        first and stamped once written, then the closing brackets; the first piece that does not
        fit ends it with false. Outcome, text and stamping are those of PayloadOf. */
    method WriteSelectedSpans(header: string, toSend: nat) returns (ok: bool, doc: string)
      requires Valid() && |header| < CAPACITY
      modifies spans
      ensures Valid() && |doc| < CAPACITY
      ensures var p := PayloadOf(header, SpanJsons(renderDouble, Picks(old(Table()), toSend)));
              ok == p.ok && Table() == MarkSent(old(Table()), p.marked) && (ok ==> doc == p.body)
    {
      // The proof uses only the contracts of these document texts (costly literals), table passes, counts.
      hide PayloadOf, SpanJsons, Picks, MarkSent, Join, SpanJson, CountCompleted, CountActive, Bounded;
      ghost var t := Table();
      WritingStart(renderDouble, header, toSend, t);
      doc := header;
      var first := true;
      var sent: nat := 0;
      var i: nat := 0;
      while i < spanCount && sent < toSend
        invariant i <= spanCount && Valid() && |t| == spanCount
        invariant Writing(renderDouble, header, toSend, t, i, sent, first, doc, Table())
        decreases spanCount - i
      {
        ok, sent, first, doc := SpanPass(header, toSend, t, i, sent, first, doc);
        if !ok {
          return;
        }
        i := i + 1;
      }
      WritingDone(renderDouble, header, toSend, t, i, sent, first, doc, Table());
      var r := AppendToBuffer(doc, DOC_CLOSE);
      ok, doc := r.ok, r.content;
    }

    /** One pass of that loop, over entry i (lines 226-353): an entry that is not completed is
        skipped; a completed one is the next selected span, written after the document so far and
        then stamped, or, when its text does not fit, the end of the loop with PayloadOf's failure
        at it. */
    method SpanPass(header: string, toSend: nat, ghost t: seq<Span>, i: nat, sent: nat, first: bool, doc: string)
      returns (ok: bool, sentAfter: nat, firstAfter: bool, docAfter: string)
      requires Valid() && i < spanCount && |t| == spanCount && sent < toSend
      requires Writing(renderDouble, header, toSend, t, i, sent, first, doc, Table())
      modifies spans
      ensures Valid()
      ensures ok ==> Writing(renderDouble, header, toSend, t, i + 1, sentAfter, firstAfter, docAfter, Table())
      ensures !ok ==> |docAfter| < CAPACITY && sentAfter == sent && Table() == MarkSent(t, sent)
                      && PayloadOf(header, SpanJsons(renderDouble, Picks(t, toSend))) == Payload(false, [], sent)
    {
      // The proof uses only the contracts of these document texts (costly literals), table passes, counts.
      hide PayloadOf, SpanJsons, Picks, MarkSent, Join, SpanJson, CountCompleted, CountActive, Bounded;
      WritingEntry(renderDouble, header, toSend, t, i, sent, first, doc, Table());
      if spans[i].isActive || spans[i].endTimeNanos == 0 {
        WritingSkip(renderDouble, header, toSend, t, i, sent, first, doc, Table());
        return true, sent, first, doc;
      }
      ok, docAfter := WriteNext(header, toSend, t, i, sent, first, doc);
      sentAfter, firstAfter := if ok then sent + 1 else sent, false;
    }

    /** A completed entry in that loop (lines 226-353): its text after the document so far, then
        its stamp; or, when the text does not fit, PayloadOf's failure at it. */
    method WriteNext(header: string, toSend: nat, ghost t: seq<Span>, i: nat, sent: nat, first: bool, doc: string)
      returns (ok: bool, out: string)
      requires Valid() && i < spanCount && |t| == spanCount && sent < toSend && IsCompleted(t[i])
      requires Writing(renderDouble, header, toSend, t, i, sent, first, doc, Table())
      modifies spans
      ensures Valid()
      ensures ok ==> Writing(renderDouble, header, toSend, t, i + 1, sent + 1, false, out, Table())
      ensures !ok ==> |out| < CAPACITY && Table() == MarkSent(t, sent)
                      && PayloadOf(header, SpanJsons(renderDouble, Picks(t, toSend))) == Payload(false, [], sent)
    {
      // The proof uses only the contracts of these document texts (costly literals), table passes, counts.
      hide PayloadOf, SpanJsons, Picks, MarkSent, Join, SpanJson, CountCompleted, CountActive, Bounded;
      WritingEntry(renderDouble, header, toSend, t, i, sent, first, doc, Table());
      var s := spans[i];
      ok, out := AppendEntry(doc, s, first);
      if !ok {
        WritingStops(renderDouble, header, toSend, t, i, sent, first, doc, Table());
        return;
      }
      WritingStep(renderDouble, header, toSend, t, i, sent, first, doc, Table(), out);
      StampSent(i);
    }

    /** The text of one pass of the span loop (lines 226-351): the comma unless the span is the
        first, then the text of the span. */
    method AppendEntry(doc: string, s: Span, first: bool) returns (ok: bool, out: string)
      requires |doc| < CAPACITY
      ensures ok <==> |doc| + |Entry(first, SpanJson(renderDouble, s))| < CAPACITY
      ensures ok ==> out == doc + Entry(first, SpanJson(renderDouble, s))
      ensures |out| < CAPACITY
    {
      var start := doc;
      if !first {
        var r := AppendToBuffer(doc, ",");
        if !r.ok {
          return false, r.content;
        }
        start := r.content;
      }
      ok, out := AppendSpan(start, s);
      if !first {
        AppendAssoc(doc, ",", SpanJson(renderDouble, s));
      }
    }

    /** The stamp of a written span (line 352): `endTimeNanos = 1`, so that sendTraces can find
        it again. */
    method StampSent(i: nat)
      requires Valid() && i < spanCount && IsCompleted(spans[i])
      modifies spans
      ensures Valid()
      ensures Table() == old(Table())[i := old(spans[i]).(endTimeNanos := 1)]
    {
      ghost var t := Table();
      var stamped := spans[i].(endTimeNanos := 1);
      CountActiveUpdate(t, i, stamped);
      BoundedAt(t, i);
      BoundedUpdate(t, i, stamped);
      spans[i] := stamped;
      assert Table() == t[i := stamped];
    }

    /** Overwrites entry i with a span of the same activity and within MAX_SPAN_ATTRS
        attributes: the invariant survives, and the table changes at i only. */
    method Put(i: nat, x: Span)
      requires Valid() && i < spanCount
      requires x.isActive == spans[i].isActive && |x.attributes| <= MAX_SPAN_ATTRS
      modifies spans
      ensures Valid() && Table() == old(Table())[i := x]
    {
      ghost var t := Table();
      CountActiveUpdate(t, i, x);
      BoundedUpdate(t, i, x);
      spans[i] := x;
      assert Table() == t[i := x];
    }

    /** Ends the active span at entry i at time `now` (lines 697-700 and 458-461). */
    method EndAt(i: nat, now: u64)
      requires Valid() && i < spanCount && spans[i].isActive
      modifies this`activeSpanCount, spans
      ensures Valid() && activeSpanCount == old(activeSpanCount) - 1
      ensures Table() == old(Table())[i := old(spans[i]).(isActive := false, endTimeNanos := now)]
    {
      ghost var t := Table();
      var s := spans[i].(isActive := false, endTimeNanos := now);
      CountActiveUpdate(t, i, s);
      BoundedAt(t, i);
      BoundedUpdate(t, i, s);
      spans[i] := s;
      activeSpanCount := activeSpanCount - 1;
      assert Table() == t[i := s];
    }

    /** The id-clearing loop of sendTraces (lines 810-824): the completed spans get `spanId = 0`
        in table order, and the loop stops after MAX_SPANS_PER_BATCH of them. */
    method ClearSentIds()
      requires Valid()
      modifies spans
      ensures Valid() && Table() == ClearIds(old(Table()), MAX_SPANS_PER_BATCH)
    {
      // The proof uses only the contracts of these table passes, counts.
      hide ClearIds, CountCompleted, CountActive, Bounded;
      ghost var t := Table();
      ClearingStart(t);
      var moved: nat := 0;
      var i: nat := 0;
      while i < spanCount && moved < MAX_SPANS_PER_BATCH
        invariant i <= spanCount && Valid() && |t| == spanCount
        invariant Clearing(t, i, moved, Table()) && moved <= MAX_SPANS_PER_BATCH
      {
        moved := ClearAt(t, i, moved);
        i := i + 1;
      }
      ClearingDone(t, i, moved, Table(), MAX_SPANS_PER_BATCH);
    }

    /** One iteration of the id-clearing loop: a completed entry i gets `spanId = 0`. */
    method ClearAt(ghost t: seq<Span>, i: nat, moved: nat) returns (next: nat)
      requires Valid() && |t| == spanCount && i < spanCount && Clearing(t, i, moved, Table())
      modifies spans
      ensures Valid() && Clearing(t, i + 1, next, Table())
      ensures next == moved || next == moved + 1
    {
      // The proof uses only the contracts of these table passes, counts.
      hide ClearIds, CountCompleted, CountActive, Bounded;
      ClearingStep(t, i, moved, Table());
      next := moved;
      if !spans[i].isActive && spans[i].endTimeNanos > 0 {
        BoundedAt(Table(), i);
        Put(i, spans[i].(spanId := 0));
        next := moved + 1;
      }
    }

    /** removeMarkedSpans (lines 384-406): the entries that are active or not stamped
        `endTimeNanos == 1` move to the front in their order, and spanCount becomes their number. */
    method RemoveMarkedSpans()
      requires Valid()
      modifies this`spanCount, spans
      ensures Valid() && Table() == RemoveMarked(old(Table()))
    {
      // The proof uses only the contracts of these table passes, counts.
      hide CountActive, Bounded, KeepActive;
      ghost var t := Table();
      var kept: nat := 0;
      var i: nat := 0;
      while i < spanCount
        invariant spanCount == |t| && Removing(t, i, kept, spans[..])
      {
        kept := RemoveAt(t, i, kept);
        i := i + 1;
      }
      assert t[..i] == t;
      CompactionCounts(t);
      RemoveMarkedBounded(t);
      spanCount := kept;
    }

    /** One iteration of removeMarkedSpans: entry i moves to slot `kept` unless it is marked. */
    method RemoveAt(ghost t: seq<Span>, i: nat, kept: nat) returns (next: nat)
      requires spanCount == |t| && i < spanCount && Removing(t, i, kept, spans[..])
      modifies spans
      ensures Removing(t, i + 1, next, spans[..])
    {
      RemovingStep(t, i, kept, spans[..]);
      next := kept;
      if !(!spans[i].isActive && spans[i].endTimeNanos == 1) {
        spans[kept] := spans[i];
        next := kept + 1;
      }
    }

    /** The loop counting the inactive spans in cleanupOldSpans (lines 420-425). */
    method CountInactiveSpans() returns (count: nat)
      requires Valid()
      ensures count == CountInactive(Table())
    {
      ghost var t := Table();
      count := 0;
      var i := 0;
      while i < spanCount
        invariant 0 <= i <= spanCount
        invariant count == CountInactive(t[..i])
      {
        CountsStep(t, i);
        if !spans[i].isActive {
          count := count + 1;
        }
        i := i + 1;
      }
      assert t[..i] == t;
    }

    /** The compaction of cleanupOldSpans (lines 432-444): the active entries move to the front in
        their order, and spanCount becomes their number. */
    method DropInactiveSpans()
      requires Valid()
      modifies this`spanCount, spans
      ensures Valid() && Table() == KeepActive(old(Table()))
    {
      // The proof uses only the contracts of these table passes, counts.
      hide CountActive, Bounded, RemoveMarked;
      ghost var t := Table();
      var kept: nat := 0;
      var i: nat := 0;
      while i < spanCount
        invariant spanCount == |t| && Keeping(t, i, kept, spans[..])
      {
        kept := KeepAt(t, i, kept);
        i := i + 1;
      }
      assert t[..i] == t;
      CompactionCounts(t);
      KeepActiveBounded(t);
      spanCount := kept;
    }

    /** One iteration of the compaction in cleanupOldSpans: entry i moves to slot `kept` if it
        is active. */
    method KeepAt(ghost t: seq<Span>, i: nat, kept: nat) returns (next: nat)
      requires spanCount == |t| && i < spanCount && Keeping(t, i, kept, spans[..])
      modifies spans
      ensures Keeping(t, i + 1, next, spans[..])
    {
      KeepingStep(t, i, kept, spans[..]);
      next := kept;
      if spans[i].isActive {
        spans[kept] := spans[i];
        next := kept + 1;
      }
    }

    /** The leak valve of cleanupOldSpans (lines 453-465): from index 0 upward, active spans are
        ended at `now` while more than MAX_SPANS / 2 entries would stay unended; it returns how
        many it ended. */
    method ForceEndOldest(now: u64) returns (ended: nat)
      requires Valid() && spanCount >= FORCE_END_TARGET
      modifies this`activeSpanCount, spans
      ensures Valid()
      ensures var n := |old(Table())| - FORCE_END_TARGET;
              Table() == ForceEnd(old(Table()), n, now) && ended == Min(n, CountActive(old(Table())))
    {
      // The proof uses only the contracts of these table passes, counts.
      hide Bounded, Min, ForceEnd, CountActive;
      ghost var t := Table();
      ghost var n := spanCount - FORCE_END_TARGET;
      ForcingStart(t, n, now);
      ended := 0;
      var i: nat := 0;
      while i < spanCount && spanCount - ended > MAX_SPANS / 2
        invariant i <= spanCount && Valid() && |t| == spanCount
        invariant Forcing(t, n, now, i, ended, Table())
      {
        ended := ForceAt(t, n, now, i, ended);
        i := i + 1;
      }
      ForcingDone(t, n, now, i, ended, Table());
    }

    /** One iteration of the leak valve: an active entry i is ended at `now`. */
    method ForceAt(ghost t: seq<Span>, ghost n: nat, now: u64, i: nat, ended: nat) returns (next: nat)
      requires Valid() && |t| == spanCount && i < spanCount && ended < n
      requires Forcing(t, n, now, i, ended, Table())
      modifies this`activeSpanCount, spans
      ensures Valid() && Forcing(t, n, now, i + 1, next, Table())
    {
      ForcingStep(t, n, now, i, ended, Table());
      next := ended;
      if spans[i].isActive {
        EndAt(i, now);
        next := ended + 1;
      }
    }

    /** `http.POST(jsonBuffer)` to `endpoint` (lines 800-801 and 891): the request is recorded and the
        collector's next reply becomes lastHttpCode. */
    method HttpPost(endpoint: string) returns (code: int)
      modifies this`replies, this`posts, this`lastHttpCode
      ensures LinkState() == Post(old(LinkState()), endpoint, jsonBuffer) && code == lastHttpCode
    {
      code := NextReply(replies);
      posts := posts + [Request(endpoint, jsonBuffer)];
      replies := RestReplies(replies);
      lastHttpCode := code;
    }

    /** sendTraces (lines 718-853): the transition SendTracesModel of the table and the link.
        The recursion ends because every successful round removes at least one span. */
    method SendTraces() returns (ok: bool)
      requires Valid()
      modifies this`spanCount, spans, this`jsonBuffer, this`replies, this`posts, this`lastHttpCode, this`lastError
      ensures Valid()
      ensures var r := SendTracesModel(old(Table()), old(LinkState()), old(Cfg()));
              Table() == r.spans && LinkState() == r.link && ok == r.ok
      decreases spanCount, 4
    {
      // The proof uses only the contracts of these document texts (costly literals).
      hide TracePayload;
      var completed := CountCompletedSpans();
      if completed == 0 {
        return true;
      }
      if tracesEndpoint == [] {
        lastError := NoEndpoint;
        return false;
      }
      ok := SendBatch(Table(), LinkState(), Cfg());
    }

    /** sendTraces from the `memset` of jsonBuffer on (lines 748-853), with a completed span and
        an endpoint, from the table t, the link and the configuration cfg: the payload is built,
        then POSTed when it could be. The memset has no counterpart: with a completed span
        createTracePayload rewrites the buffer from position 0 whatever it held. */
    method SendBatch(ghost t: seq<Span>, ghost link: Link, ghost cfg: Config) returns (ok: bool)
      requires Valid() && Table() == t && LinkState() == link && Cfg() == cfg
      requires CountCompleted(t) > 0 && cfg.tracesEndpoint != []
      modifies this`spanCount, spans, this`jsonBuffer, this`replies, this`posts, this`lastHttpCode, this`lastError
      ensures Valid() && SendTracesModel(t, link, cfg) == Traced(Table(), LinkState(), ok)
      decreases spanCount, 3
    {
      // Only the contracts of BuildTrace and of the lemmas below are needed here.
      // The proof uses only the contracts of these document texts (costly literals).
      hide TracePayload;
      var built := BuildTrace(t, cfg);
      ghost var p := TracePayload(cfg, t);
      if !built {
        lastError := TracePayloadFailed;
        SendUnbuilt(t, link, cfg);
        return false;
      }
      ok := Deliver(t, p.marked, link, cfg, p.body);
      SendBuilt(t, link, cfg, Traced(Table(), LinkState(), ok));
    }

    /** createTracePayload on the table t under the configuration cfg, which hold a completed
        span: outcome, document and stamping are those of TracePayload(cfg, t). */
    method BuildTrace(ghost t: seq<Span>, ghost cfg: Config) returns (built: bool)
      requires Valid() && Table() == t && Cfg() == cfg && CountCompleted(t) > 0
      modifies this`jsonBuffer, spans
      ensures Valid() && built == TracePayload(cfg, t).ok
      ensures Table() == MarkSent(t, TracePayload(cfg, t).marked)
      ensures built ==> jsonBuffer == TracePayload(cfg, t).body
    {
      built := CreateTracePayload();
    }

    /** The POST of sendTraces and what follows it (lines 797-852), with the first n selected
        spans of ss stamped, the payload `body` in jsonBuffer, and `link` and `cfg` the state. */
    method Deliver(ghost ss: seq<Span>, ghost n: nat, ghost link: Link, ghost cfg: Config, ghost body: string)
      returns (ok: bool)
      requires Valid() && CountCompleted(ss) > 0 && n >= 1 && Table() == MarkSent(ss, n)
      requires LinkState() == link && Cfg() == cfg && jsonBuffer == body
      modifies this`spanCount, spans, this`jsonBuffer, this`replies, this`posts, this`lastHttpCode, this`lastError
      ensures Valid() && Delivered(ss, n, Post(link, cfg.tracesEndpoint, body), cfg) == Traced(Table(), LinkState(), ok)
      decreases spanCount, 2
    {
      // The proof uses only the contracts of these document texts (costly literals).
      hide TracePayload;
      var code := HttpPost(tracesEndpoint);
      if !(200 <= code < 300) {
        lastError := TracesHttpError(code);
        return false;
      }
      ok := Resend(ss, n, LinkState(), Cfg());
    }

    /** A successful POST of sendTraces (lines 805-836): the ids of the first MAX_SPANS_PER_BATCH
        completed spans are zeroed, the stamped spans are dropped, and sendTraces runs again
        while a completed span remains; the result is true either way. */
    method Resend(ghost ss: seq<Span>, ghost n: nat, ghost sent: Link, ghost cfg: Config) returns (ok: bool)
      requires Valid() && CountCompleted(ss) > 0 && n >= 1 && Table() == MarkSent(ss, n)
      requires LinkState() == sent && Cfg() == cfg && Is2xx(sent.lastHttpCode)
      modifies this`spanCount, spans, this`jsonBuffer, this`replies, this`posts, this`lastHttpCode, this`lastError
      ensures Valid() && Delivered(ss, n, sent, cfg) == Traced(Table(), LinkState(), ok)
      decreases spanCount, 1
    {
      // The proof uses only the contracts of these document texts (costly literals), table passes, counts, send transitions.
      hide TracePayload, Delivered, SendTracesModel, MarkSent, ClearIds, RemoveMarked, CountActive, Bounded;
      ClearSentIds();
      RemoveMarkedSpans();
      RoundShrinks(ss, n, MAX_SPANS_PER_BATCH);
      var more := CountCompletedSpans();
      ok := Finish(ss, n, sent, cfg, more);
    }

    /** The end of a successful round (lines 829-836), once the sent spans are gone and `more`
        completed spans remain: sendTraces runs again, its result ignored, when there are any. */
    method Finish(ghost ss: seq<Span>, ghost n: nat, ghost sent: Link, ghost cfg: Config, more: nat) returns (ok: bool)
      requires Valid() && CountCompleted(ss) > 0 && n >= 1 && Is2xx(sent.lastHttpCode)
      requires Table() == RemoveMarked(ClearIds(MarkSent(ss, n), MAX_SPANS_PER_BATCH))
      requires more == CountCompleted(Table()) && LinkState() == sent && Cfg() == cfg
      modifies this`spanCount, spans, this`jsonBuffer, this`replies, this`posts, this`lastHttpCode, this`lastError
      ensures Valid() && Delivered(ss, n, sent, cfg) == Traced(Table(), LinkState(), ok)
      decreases spanCount, 5
    {
      ghost var rest := Table();
      ok := true;
      if more > 0 {
        var again := SendTraces();
        ResentAgain(ss, n, sent, cfg, rest, Table(), LinkState());
      } else {
        ResentDone(ss, n, sent, cfg, rest);
      }
    }

    /** cleanupOldSpans (lines 409-475) at the clock reading `now`: the transition CleanupModel of
        the table and the link. */
    method CleanupOldSpans(now: u64)
      requires Valid()
      modifies this`spanCount, spans, this`activeSpanCount, this`jsonBuffer, this`replies, this`posts,
               this`lastHttpCode, this`lastError
      ensures Valid()
      ensures var r := CleanupModel(old(Table()), old(LinkState()), old(Cfg()), now);
              Table() == r.spans && LinkState() == r.link
    {
      // The proof uses only the contracts of these document texts (costly literals), table passes, counts, send transitions.
      hide TracePayload, SendTracesModel, ForceEndAndSend, KeepActive, CountInactive, CountActive, Bounded;
      if spanCount < CLEANUP_THRESHOLD {
        return;
      }
      var _ := SendTraces();
      if spanCount >= CLEANUP_THRESHOLD {
        Reclaim(now);
      }
    }

    /** What cleanupOldSpans does when the table is still at CLEANUP_THRESHOLD entries after a send
        (lines 416-472): the inactive spans are dropped when there are any, then the leak valve
        runs. */
    method Reclaim(now: u64)
      requires Valid()
      modifies this`spanCount, spans, this`activeSpanCount, this`jsonBuffer, this`replies, this`posts,
               this`lastHttpCode, this`lastError
      ensures Valid()
      ensures var kept := if CountInactive(old(Table())) > 0 then KeepActive(old(Table())) else old(Table());
              var r := ForceEndAndSend(kept, old(LinkState()), old(Cfg()), now);
              Table() == r.spans && LinkState() == r.link
    {
      // The proof uses only the contracts of these document texts (costly literals), send transitions.
      hide TracePayload, ForceEndAndSend;
      var inactive := CountInactiveSpans();
      if inactive > 0 {
        DropInactiveSpans();
      }
      LeakValve(now, Table(), LinkState(), Cfg());
    }

    /** The leak valve of cleanupOldSpans (lines 447-472) on the table `kept`: on at least
        LEAK_THRESHOLD entries the oldest active spans are ended, and sent when any was. */
    method LeakValve(now: u64, ghost kept: seq<Span>, ghost link: Link, ghost cfg: Config)
      requires Valid() && Table() == kept && LinkState() == link && Cfg() == cfg
      modifies this`spanCount, spans, this`activeSpanCount, this`jsonBuffer, this`replies, this`posts,
               this`lastHttpCode, this`lastError
      ensures Valid() && ForceEndAndSend(kept, link, cfg, now) == Cleaned(Table(), LinkState())
    {
      ValveOutcome(kept, link, cfg, now);
      // The proof uses only the contracts of these document texts (costly literals), table passes, counts, send transitions.
      hide TracePayload, SendTracesModel, ForceEndAndSend, ForceEnd, Min, CountActive, Bounded;
      if spanCount >= LEAK_THRESHOLD {
        var ended := ForceEndOldest(now);
        if ended > 0 {
          var _ := SendTraces();
        }
      }
    }

    /** startSpan (lines 535-573) at the clock reading `now`, with the eight random bytes of
        generateRandomId: the transition StartSpanModel. */
    method StartSpan(name: string, parentSpanId: u64, random: seq<byte>, now: u64) returns (spanId: u64)
      requires Valid() && |random| == 8
      modifies this`spanCount, spans, this`activeSpanCount, this`jsonBuffer, this`replies, this`posts,
               this`lastHttpCode, this`lastError
      ensures Valid()
      ensures var r := StartSpanModel(old(Table()), old(LinkState()), old(Cfg()), currentTraceId, name,
                                      parentSpanId, random, now);
              Table() == r.spans && LinkState() == r.link && spanId == r.spanId
    {
      // The proof uses only the contracts of these document texts (costly literals), send transitions.
      hide TracePayload, CleanupModel;
      if spanCount >= START_CLEANUP_THRESHOLD {
        CleanupOldSpans(now);
      }
      spanId := AddSpan(name, parentSpanId, random, now);
    }

    /** The rest of startSpan (lines 541-572): 0 on a full table, otherwise the new span is
        written at the end of the table, counted as active, and its id returned. */
    method AddSpan(name: string, parentSpanId: u64, random: seq<byte>, now: u64) returns (spanId: u64)
      requires Valid() && |random| == 8
      modifies this`spanCount, spans, this`activeSpanCount
      ensures Valid()
      ensures old(spanCount) >= MAX_SPANS ==> Table() == old(Table()) && spanId == 0
      ensures old(spanCount) < MAX_SPANS ==>
                spanId == IdOf(random)
                && Table() == old(Table()) + [NewSpan(name, currentTraceId, spanId, parentSpanId, now)]
    {
      if spanCount >= MAX_SPANS {
        return 0;
      }
      spanId := GenerateRandomId(random);
      var s := NewSpan(name, currentTraceId, spanId, parentSpanId, now);
      ghost var t := Table();
      CountActiveSnoc(t, s);
      BoundedSnoc(t, s);
      spans[spanCount] := s;
      spanCount := spanCount + 1;
      activeSpanCount := activeSpanCount + 1;
      assert Table() == t + [s];
    }

    /** sendMetrics (lines 855-911) with the two WiFi readings, `connected` before the payload is
        built and `stillConnected` after: the transition SendMetricsModel of the batch and the
        link. The batch is emptied once a POST was made, whatever its status. */
    method SendMetrics(connected: bool, stillConnected: bool) returns (ok: bool)
      requires Valid()
      modifies this`metricCount, this`jsonBuffer, this`replies, this`posts, this`lastHttpCode, this`lastError
      ensures Valid()
      ensures var r := SendMetricsModel(old(Batch()), old(LinkState()), old(Cfg()), connected, stillConnected);
              Batch() == r.metrics && LinkState() == r.link && ok == r.ok
    {
      // The proof uses only the contracts of these document texts (costly literals), counts.
      hide TracePayload, MetricsDoc, MetricsHeader, Join, MetricJsons, CountActive, Bounded;
      if metricCount == 0 {
        lastError := NoMetrics;
        return false;
      }
      if !connected {
        lastError := WifiNotConnected;
        lastHttpCode := 0;
        return false;
      }
      var built := CreateBatchPayload();
      if !built {
        lastError := MetricsPayloadOverflow;
        return false;
      }
      if !stillConnected {
        lastError := WifiDisconnectedBeforeSend;
        lastHttpCode := 0;
        return false;
      }
      var code := HttpPost(metricsEndpoint);
      if Is2xx(code) {
        lastError := NoError;
      } else {
        lastError := MetricsHttpError(code);
      }
      metricCount := 0;
      ok := Is2xx(code);
    }

    /** sendMetricsAndTraces (lines 914-977) with its own WiFi reading and the two of sendMetrics:
        the transition SendBothModel of the table, the batch and the link. The completed spans are
        counted before the metrics are sent. */
    method SendMetricsAndTraces(connected: bool, metricsConnected: bool, metricsStillConnected: bool)
      returns (ok: bool)
      requires Valid()
      modifies this`spanCount, spans, this`metricCount, this`jsonBuffer, this`replies, this`posts,
               this`lastHttpCode, this`lastError
      ensures Valid()
      ensures var r := SendBothModel(old(Table()), old(Batch()), old(LinkState()), old(Cfg()),
                                     connected, metricsConnected, metricsStillConnected);
              Table() == r.spans && Batch() == r.metrics && LinkState() == r.link && ok == r.ok
    {
      // The proof uses only the contracts of these document texts (costly literals), send transitions.
      hide TracePayload, MetricsDoc, SendTracesModel, SendMetricsModel;
      if !connected {
        lastError := WifiNotConnected;
        lastHttpCode := 0;
        return false;
      }
      if !HasValidTracesEndpoint() {
        lastError := NoEndpoint;
        lastHttpCode := 0;
        return false;
      }
      SendBothSteps(Table(), Batch(), LinkState(), Cfg(), metricsConnected, metricsStillConnected);
      ok := SendQueued(Table(), Batch(), LinkState(), Cfg(), metricsConnected, metricsStillConnected);
    }

    /** The sends of sendMetricsAndTraces (lines 940-976) from the table ss, the batch ms, the
        link and the configuration cfg, which has a traces endpoint. */
    method SendQueued(ghost ss: seq<Span>, ghost ms: seq<MetricPoint>, ghost link: Link, ghost cfg: Config,
                      metricsConnected: bool, metricsStillConnected: bool) returns (ok: bool)
      requires Valid() && Table() == ss && Batch() == ms && LinkState() == link && Cfg() == cfg
      requires cfg.tracesEndpoint != []
      modifies this`spanCount, spans, this`metricCount, this`jsonBuffer, this`replies, this`posts,
               this`lastHttpCode, this`lastError
      ensures Valid()
      ensures var m := if ms != [] then SendMetricsModel(ms, link, cfg, metricsConnected, metricsStillConnected)
                       else Metered(ms, link, true);
              var t := if CountCompleted(ss) > 0 then SendTracesModel(ss, m.link, cfg) else Traced(ss, m.link, true);
              Table() == t.spans && Batch() == m.metrics && LinkState() == t.link && ok == (m.ok && t.ok)
    {
      // The proof uses only the contracts of these document texts (costly literals), counts, send transitions.
      hide TracePayload, MetricsDoc, SendTracesModel, SendMetricsModel, CountActive, Bounded;
      var completed := CountCompletedSpans();
      var metricsOk := SendMetricsIfAny(ms, link, cfg, metricsConnected, metricsStillConnected);
      var tracesOk := SendTracesIfAny(ss, LinkState(), cfg, completed);
      ok := metricsOk && tracesOk;
    }

    /** Lines 951-961: sendMetrics when the batch has points; an empty batch counts as sent. */
    method SendMetricsIfAny(ghost ms: seq<MetricPoint>, ghost link: Link, ghost cfg: Config,
                            metricsConnected: bool, metricsStillConnected: bool) returns (ok: bool)
      requires Valid() && Batch() == ms && LinkState() == link && Cfg() == cfg
      modifies this`metricCount, this`jsonBuffer, this`replies, this`posts, this`lastHttpCode, this`lastError
      ensures Valid()
      ensures (if ms != [] then SendMetricsModel(ms, link, cfg, metricsConnected, metricsStillConnected)
               else Metered(ms, link, true))
              == Metered(Batch(), LinkState(), ok)
    {
      // The proof uses only the contracts of these document texts (costly literals), send transitions.
      hide TracePayload, MetricsDoc, SendMetricsModel;
      ok := true;
      if metricCount > 0 {
        ok := SendMetrics(metricsConnected, metricsStillConnected);
      }
    }

    /** Lines 964-974: sendTraces when `completed` (the count taken before the metrics were sent)
        is positive; no completed span counts as sent. */
    method SendTracesIfAny(ghost ss: seq<Span>, ghost link: Link, ghost cfg: Config, completed: nat) returns (ok: bool)
      requires Valid() && Table() == ss && LinkState() == link && Cfg() == cfg && completed == CountCompleted(ss)
      modifies this`spanCount, spans, this`jsonBuffer, this`replies, this`posts, this`lastHttpCode, this`lastError
      ensures Valid()
      ensures (if completed > 0 then SendTracesModel(ss, link, cfg) else Traced(ss, link, true))
              == Traced(Table(), LinkState(), ok)
    {
      // The proof uses only the contracts of these document texts (costly literals), send transitions.
      hide TracePayload, SendTracesModel;
      ok := true;
      if completed > 0 {
        ok := SendTraces();
      }
    }

    /** getSpanStats (lines 1015-1019). */
    method GetSpanStats() returns (total: nat, active: nat, completed: nat)
      requires Valid()
      ensures total == |Table()| && active == CountActive(Table()) && completed == CountInactive(Table())
      ensures total == active + completed
    {
      total := spanCount;
      active := activeSpanCount;
      completed := spanCount - activeSpanCount;
    }

    /** getCurrentTraceIdHex (lines 988-1007) as the text it leaves in the caller's buffer: None
        when the buffer has no room at all and is left untouched, empty when it is shorter than
        33 characters, "no_active_trace" for the zero id, the 32 hex digits otherwise. */
    function CurrentTraceIdHex(bufferSize: nat): (text: Option<string>)
      reads this`currentTraceId
      ensures text.None? <==> bufferSize == 0
      ensures 0 < bufferSize < 33 ==> text == Some([])
      ensures bufferSize >= 33 && currentTraceId == TraceId(0, 0) ==> text == Some("no_active_trace")
      ensures bufferSize >= 33 && currentTraceId != TraceId(0, 0) ==>
                text.Some? && |text.value| == 32
                && (forall i :: 0 <= i < 32 ==> IsLowerHex(text.value[i]))
                && HexValue(text.value[..16]) == currentTraceId.hi
                && HexValue(text.value[16..]) == currentTraceId.lo
    {
      if bufferSize == 0 then None
      else if bufferSize < 33 then Some([])
      else if currentTraceId == TraceId(0, 0) then Some("no_active_trace")
      else
        var text := Hex16(currentTraceId.hi) + Hex16(currentTraceId.lo);
        assert text[..16] == Hex16(currentTraceId.hi) && text[16..] == Hex16(currentTraceId.lo);
        Hex16RoundTrip(currentTraceId.hi);
        Hex16RoundTrip(currentTraceId.lo);
        Some(text)
    }

    /** hasValidMetricsEndpoint / hasValidTracesEndpoint (lines 1169-1177). */
    predicate HasValidMetricsEndpoint()
      reads this`metricsEndpoint
    {
      metricsEndpoint != []
    }

    predicate HasValidTracesEndpoint()
      reads this`tracesEndpoint
    {
      tracesEndpoint != []
    }

    /** initializeMetricsEndpoint / initializeTracesEndpoint (lines 1144-1161): an empty argument
        is ignored. */
    method InitializeMetricsEndpoint(newEndpoint: string)
      modifies this`metricsEndpoint
      ensures metricsEndpoint == if newEndpoint != [] then newEndpoint else old(metricsEndpoint)
    {
      if newEndpoint != [] {
        metricsEndpoint := newEndpoint;
      }
    }

    method InitializeTracesEndpoint(newEndpoint: string)
      modifies this`tracesEndpoint
      ensures tracesEndpoint == if newEndpoint != [] then newEndpoint else old(tracesEndpoint)
    {
      if newEndpoint != [] {
        tracesEndpoint := newEndpoint;
      }
    }
  }
}
