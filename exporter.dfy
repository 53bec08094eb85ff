/** The send operations as transitions of values: what sendTraces, sendMetrics,
    sendMetricsAndTraces and cleanupOldSpans do to the span table, the metric batch and the
    exporter's record of its collector. The methods of the exporter class are proved to perform
    exactly these transitions. */
module Exporter {
  import opened Types
  import opened Ids
  import opened JsonBuffer
  import opened Arena
  import opened Otlp

  /** One HTTP POST: the endpoint and the body. */
  datatype Request = Request(endpoint: string, body: string)

  /** The exporter's side of the collector: the status codes the collector will answer with,
      one per POST (a POST with none left fails like a refused connection, -1), the requests made
      so far, `lastHttpCode` and `lastErrorMessage`. */
  datatype Link = Link(replies: seq<int>, posts: seq<Request>, lastHttpCode: int, lastError: ErrorKind)

  /** What the payloads are built from and where they are sent. */
  datatype Config = Config(resource: Resource, metricsEndpoint: string, tracesEndpoint: string, render: real -> string)

  predicate Is2xx(code: int) { 200 <= code < 300 }

  function NextReply(replies: seq<int>): int {
    if replies == [] then -1 else replies[0]
  }

  function RestReplies(replies: seq<int>): seq<int> {
    if replies == [] then [] else replies[1..]
  }

  /** `http.POST(jsonBuffer)`: the request is recorded and the next reply becomes `lastHttpCode`. */
  function Post(link: Link, endpoint: string, body: string): Link {
    link.(replies := RestReplies(link.replies), posts := link.posts + [Request(endpoint, body)],
          lastHttpCode := NextReply(link.replies))
  }

  /** The outcome of createTracePayload: whether it succeeded, the document, and how many of the
      selected spans were stamped `endTimeNanos = 1` (a span is stamped once its object is
      complete in the buffer, so a failure midway leaves the spans before it stamped). */
  datatype Payload = Payload(ok: bool, body: string, marked: nat)

  /** The spans createTracePayload selects: the first BatchSize completed ones. */
  function Selected(ss: seq<Span>): (ps: seq<Span>)
    requires CountCompleted(ss) > 0
    ensures 1 <= |ps| <= MAX_SPANS_PER_BATCH
  {
    Picks(ss, BatchSize(CountCompleted(ss), TotalAttrs(ss)))
  }

  /** The outcome of writing `header`, the list `frags` and the closing brackets into an empty
      buffer, stamping each element once it is complete: everything when the document fits;
      otherwise failure, with the elements that fit before the first that does not stamped. */
  function PayloadOf(header: string, frags: seq<string>): (p: Payload)
    ensures p.marked <= |frags|
    ensures p.ok <==> |header + Join(frags) + DOC_CLOSE| < CAPACITY
    ensures p.ok ==> p.marked == |frags| && p.body == header + Join(frags) + DOC_CLOSE
  {
    var doc := header + Join(frags) + DOC_CLOSE;
    if |doc| < CAPACITY then Payload(true, doc, |frags|)
    else Payload(false, [], FitCount(|header|, frags, |frags|))
  }

  /** createTracePayload on a table that holds a completed span. */
  function TracePayload(cfg: Config, ss: seq<Span>): (p: Payload)
    requires CountCompleted(ss) > 0
    ensures p.marked <= |Selected(ss)|
    ensures p.ok ==> p.marked == |Selected(ss)| && p.marked >= 1 && |p.body| < CAPACITY
  {
    PayloadOf(TraceHeader(cfg.resource), SpanJsons(cfg.render, Selected(ss)))
  }

  /** The state of the span loop of createTracePayload after the first i entries of the table t
      it started from: `sent` of them completed, written after `header` and stamped in `table`;
      `first` until one is written. */
  ghost predicate Writing(render: real -> string, header: string, toSend: nat, t: seq<Span>, i: nat,
                          sent: nat, first: bool, doc: string, table: seq<Span>)
  {
    i <= |t| && sent == CountCompleted(t[..i]) && sent <= toSend && (first <==> sent == 0)
    && sent <= |Picks(t, toSend)|
    && doc == header + Join(SpanJsons(render, Picks(t, toSend))[..sent]) && |doc| < CAPACITY
    && table == MarkSent(t, sent)
  }

  /** The loop starts with the header alone and nothing stamped. */
  lemma WritingStart(render: real -> string, header: string, toSend: nat, t: seq<Span>)
    requires |header| < CAPACITY
    ensures Writing(render, header, toSend, t, 0, 0, true, header, t)
  {
    assert t[..0] == [];
    MarkSentZero(t);
    assert header == header + Join(SpanJsons(render, Picks(t, toSend))[..0]);
  }

  /** The loop ends after the whole table or toSend spans: every selected span is written, and
      the closing brackets decide the outcome. */
  lemma WritingDone(render: real -> string, header: string, toSend: nat, t: seq<Span>, i: nat,
                    sent: nat, first: bool, doc: string, table: seq<Span>)
    requires Writing(render, header, toSend, t, i, sent, first, doc, table)
    requires i == |t| || sent >= toSend
    ensures var p := PayloadOf(header, SpanJsons(render, Picks(t, toSend)));
            p.marked == sent && table == MarkSent(t, sent)
            && (p.ok <==> |doc| + |DOC_CLOSE| < CAPACITY) && (p.ok ==> p.body == doc + DOC_CLOSE)
  {
    var frags := SpanJsons(render, Picks(t, toSend));
    PicksDone(t, i, toSend);
    assert frags[..sent] == frags;
    PayloadWhole(header, frags);
  }

  /** The entry the loop is at is still as it started. */
  lemma WritingEntry(render: real -> string, header: string, toSend: nat, t: seq<Span>, i: nat,
                     sent: nat, first: bool, doc: string, table: seq<Span>)
    requires Writing(render, header, toSend, t, i, sent, first, doc, table) && i < |t|
    ensures |table| == |t| && table[i] == t[i]
  {
    MarksBeyond(t, i, i);
  }

  /** An entry that is not completed is passed over. */
  lemma WritingSkip(render: real -> string, header: string, toSend: nat, t: seq<Span>, i: nat,
                    sent: nat, first: bool, doc: string, table: seq<Span>)
    requires Writing(render, header, toSend, t, i, sent, first, doc, table)
    requires i < |t| && !IsCompleted(t[i])
    ensures Writing(render, header, toSend, t, i + 1, sent, first, doc, table)
  {
    CountsStep(t, i);
  }

  /** A completed entry whose text fits is the next selected span: written, then stamped. */
  lemma WritingStep(render: real -> string, header: string, toSend: nat, t: seq<Span>, i: nat,
                    sent: nat, first: bool, doc: string, table: seq<Span>, out: string)
    requires Writing(render, header, toSend, t, i, sent, first, doc, table)
    requires i < |t| && IsCompleted(t[i]) && sent < toSend
    requires out == doc + Entry(first, SpanJson(render, t[i])) && |out| < CAPACITY
    ensures |table| == |t|
    ensures Writing(render, header, toSend, t, i + 1, sent + 1, false, out, table[i := t[i].(endTimeNanos := 1)])
  {
    var frags := SpanJsons(render, Picks(t, toSend));
    SelectedEntry(render, t, i, toSend);
    JoinNext(frags, sent);
    AppendAssoc(header, Join(frags[..sent]), Entry(first, frags[sent]));
  }

  /** A completed entry whose text does not fit ends the payload there. */
  lemma WritingStops(render: real -> string, header: string, toSend: nat, t: seq<Span>, i: nat,
                     sent: nat, first: bool, doc: string, table: seq<Span>)
    requires Writing(render, header, toSend, t, i, sent, first, doc, table)
    requires i < |t| && IsCompleted(t[i]) && sent < toSend
    requires |doc| + |Entry(first, SpanJson(render, t[i]))| >= CAPACITY
    ensures PayloadOf(header, SpanJsons(render, Picks(t, toSend))) == Payload(false, [], sent)
  {
    var frags := SpanJsons(render, Picks(t, toSend));
    SelectedEntry(render, t, i, toSend);
    JoinNext(frags, sent);
    PayloadStops(header, frags, sent);
  }

  /** A completed span met by the selection loop while fewer than n are written: its text is the
      next fragment, and its stamp is the next step of MarkSent. */
  lemma SelectedEntry(render: real -> string, t: seq<Span>, i: nat, n: nat)
    requires i < |t| && IsCompleted(t[i]) && CountCompleted(t[..i]) < n
    ensures var c := CountCompleted(t[..i]);
            var frags := SpanJsons(render, Picks(t, n));
            c < |frags| && frags[c] == SpanJson(render, t[i])
            && CountCompleted(t[..i + 1]) == c + 1
            && MarkSent(t, c + 1) == MarkSent(t, c)[i := t[i].(endTimeNanos := 1)]
  {
    PickNext(t, i, n);
    MarkSentStep(t, i);
  }

  /** The writing stops at element j when the text through element j does not fit: the payload
      fails with exactly j elements stamped. */
  lemma PayloadStops(header: string, frags: seq<string>, j: nat)
    requires j < |frags| && (j == 0 || |header| + |Join(frags[..j])| < CAPACITY)
    requires |header| + |Join(frags[..j + 1])| >= CAPACITY
    ensures PayloadOf(header, frags) == Payload(false, [], j)
  {
    JoinNext(frags, j);
    FitCountAt(|header|, frags, |frags|, j);
  }

  /** When the header and every element fit, all of them are stamped, and the payload succeeds
      exactly when the closing brackets fit too. */
  lemma PayloadWhole(header: string, frags: seq<string>)
    requires |header| + |Join(frags)| < CAPACITY
    ensures PayloadOf(header, frags).marked == |frags|
  {
    assert frags[..|frags|] == frags;
  }

  /** A header that does not fit stamps nothing. */
  lemma PayloadNoHeader(header: string, frags: seq<string>)
    requires |header| >= CAPACITY
    ensures PayloadOf(header, frags) == Payload(false, [], 0)
  {
  }

  /** How createTracePayload assembles its result: with toSend the batch size, the trace payload
      is the header followed by the picked spans, and a header that does not fit fails before
      anything is stamped. */
  lemma TracePayloadSplit(cfg: Config, ss: seq<Span>, toSend: nat)
    requires CountCompleted(ss) > 0 && toSend == BatchSize(CountCompleted(ss), TotalAttrs(ss))
    ensures TracePayload(cfg, ss)
              == PayloadOf(TraceHeader(cfg.resource), SpanJsons(cfg.render, Picks(ss, toSend)))
    ensures |TraceHeader(cfg.resource)| >= CAPACITY ==>
              TracePayload(cfg, ss) == Payload(false, [], 0) && MarkSent(ss, 0) == ss
  {
    MarkSentZero(ss);
    if |TraceHeader(cfg.resource)| >= CAPACITY {
      PayloadNoHeader(TraceHeader(cfg.resource), SpanJsons(cfg.render, Selected(ss)));
    }
  }

  /** createTracePayload put together: the header attempt, followed (when it fits) by the span
      loop's outcome (ok, doc, table), gives the trace payload's outcome, text and stamping. */
  lemma TraceAssembled(cfg: Config, t: seq<Span>, toSend: nat, head: Appended, ok: bool,
                       doc: string, table: seq<Span>)
    requires CountCompleted(t) > 0 && toSend == BatchSize(CountCompleted(t), TotalAttrs(t))
    requires head == WriteHeader(TRACE_OPEN, cfg.resource, TRACE_SCOPE)
    requires !head.ok ==> !ok && table == t
    requires head.ok ==>
               var q := PayloadOf(head.content, SpanJsons(cfg.render, Picks(t, toSend)));
               ok == q.ok && table == MarkSent(t, q.marked) && (ok ==> doc == q.body)
    ensures var p := TracePayload(cfg, t);
            ok == p.ok && table == MarkSent(t, p.marked) && (ok ==> doc == p.body)
  {
    TracePayloadSplit(cfg, t, toSend);
  }

  datatype Traced = Traced(spans: seq<Span>, link: Link, ok: bool)

  /** sendTraces (lines 718-853). Nothing to send counts as success. A failed POST leaves the
      stamped spans in the table; a successful one zeroes the ids of the first MAX_SPANS_PER_BATCH
      completed spans, drops the stamped spans, and sends again while completed spans remain,
      ignoring the outcome of that second send. */
  function SendTracesModel(ss: seq<Span>, link: Link, cfg: Config): (r: Traced)
    ensures |r.spans| <= |ss|
    ensures !r.ok ==> |r.spans| == |ss|
    ensures r.ok && CountCompleted(ss) > 0 ==> |r.spans| < |ss|
    decreases |ss|, 1
  {
    if CountCompleted(ss) == 0 then Traced(ss, link, true)
    else if cfg.tracesEndpoint == [] then Traced(ss, link.(lastError := NoEndpoint), false)
    else
      var p := TracePayload(cfg, ss);
      var marked := MarkSent(ss, p.marked);
      if !p.ok then Traced(marked, link.(lastError := TracePayloadFailed), false)
      else Delivered(ss, p.marked, Post(link, cfg.tracesEndpoint, p.body), cfg)
  }

  /** sendTraces after its POST (lines 799-852), with the first n selected spans of ss stamped
      and `sent` the link the POST left: a refusal records the HTTP error; success zeroes the
      ids, drops the stamped spans and sends again while completed spans remain, ignoring the
      outcome of that second send. */
  function Delivered(ss: seq<Span>, n: nat, sent: Link, cfg: Config): (r: Traced)
    requires CountCompleted(ss) > 0 && n >= 1
    ensures !r.ok ==> |r.spans| == |ss|
    ensures r.ok ==> |r.spans| < |ss|
    decreases |ss|, 0
  {
    var marked := MarkSent(ss, n);
    if !Is2xx(sent.lastHttpCode) then
      Traced(marked, sent.(lastError := TracesHttpError(sent.lastHttpCode)), false)
    else
      var rest := RemoveMarked(ClearIds(marked, MAX_SPANS_PER_BATCH));
      RoundShrinks(ss, n, MAX_SPANS_PER_BATCH);
      if CountCompleted(rest) > 0 then
        var again := SendTracesModel(rest, sent, cfg);
        Traced(again.spans, again.link, true)
      else
        Traced(rest, sent, true)
  }

  /** sendTraces on a table ss with a completed span and an endpoint whose payload can be
      built: the outcome is the delivery's. */
  lemma SendBuilt(ss: seq<Span>, link: Link, cfg: Config, r: Traced)
    requires CountCompleted(ss) > 0 && cfg.tracesEndpoint != [] && TracePayload(cfg, ss).ok
    requires Delivered(ss, TracePayload(cfg, ss).marked, Post(link, cfg.tracesEndpoint, TracePayload(cfg, ss).body), cfg) == r
    ensures SendTracesModel(ss, link, cfg) == r
  {
  }

  /** The same when the payload cannot be built: the send fails with the stamps made so far and
      the payload error, before any POST. */
  lemma SendUnbuilt(ss: seq<Span>, link: Link, cfg: Config)
    requires CountCompleted(ss) > 0 && cfg.tracesEndpoint != [] && !TracePayload(cfg, ss).ok
    ensures SendTracesModel(ss, link, cfg)
              == Traced(MarkSent(ss, TracePayload(cfg, ss).marked), link.(lastError := TracePayloadFailed), false)
  {
  }

  /** A delivery whose POST was accepted, when the table `rest` left after the ids are zeroed
      and the stamped spans dropped still holds a completed span: the outcome is the second
      send's table and link, and success. */
  lemma ResentAgain(ss: seq<Span>, n: nat, sent: Link, cfg: Config, rest: seq<Span>,
                    table: seq<Span>, after: Link)
    requires CountCompleted(ss) > 0 && n >= 1 && Is2xx(sent.lastHttpCode)
    requires rest == RemoveMarked(ClearIds(MarkSent(ss, n), MAX_SPANS_PER_BATCH))
    requires CountCompleted(rest) > 0
    requires table == SendTracesModel(rest, sent, cfg).spans && after == SendTracesModel(rest, sent, cfg).link
    ensures Delivered(ss, n, sent, cfg) == Traced(table, after, true)
  {
  }

  /** The same when `rest` holds no completed span: the outcome is rest, the link the POST
      left, and success. */
  lemma ResentDone(ss: seq<Span>, n: nat, sent: Link, cfg: Config, rest: seq<Span>)
    requires CountCompleted(ss) > 0 && n >= 1 && Is2xx(sent.lastHttpCode)
    requires rest == RemoveMarked(ClearIds(MarkSent(ss, n), MAX_SPANS_PER_BATCH))
    requires CountCompleted(rest) == 0
    ensures Delivered(ss, n, sent, cfg) == Traced(rest, sent, true)
  {
  }

  /** Sending traces never drops, reorders or alters an active span. */
  lemma {:induction false} SendTracesKeepsActives(ss: seq<Span>, link: Link, cfg: Config)
    ensures KeepActive(SendTracesModel(ss, link, cfg).spans) == KeepActive(ss)
    decreases |ss|
  {
    if CountCompleted(ss) > 0 && cfg.tracesEndpoint != [] {
      var p := TracePayload(cfg, ss);
      var marked := MarkSent(ss, p.marked);
      MarkSentKeepsActives(ss, p.marked);
      if p.ok {
        var sent := Post(link, cfg.tracesEndpoint, p.body);
        if Is2xx(sent.lastHttpCode) {
          var cleared := ClearIds(marked, MAX_SPANS_PER_BATCH);
          var rest := RemoveMarked(cleared);
          ClearIdsKeepsActives(marked, MAX_SPANS_PER_BATCH);
          RemoveMarkedKeepsActives(cleared);
          RoundShrinks(ss, p.marked, MAX_SPANS_PER_BATCH);
          if CountCompleted(rest) > 0 {
            SendTracesKeepsActives(rest, sent, cfg);
          }
        }
      }
    }
  }

  /** Sending traces keeps every span within MAX_SPAN_ATTRS attributes. */
  lemma {:induction false} SendTracesKeepsBound(ss: seq<Span>, link: Link, cfg: Config)
    requires Bounded(ss)
    ensures Bounded(SendTracesModel(ss, link, cfg).spans)
    decreases |ss|
  {
    if CountCompleted(ss) > 0 && cfg.tracesEndpoint != [] {
      var p := TracePayload(cfg, ss);
      var marked := MarkSent(ss, p.marked);
      MarksKeepBound(ss, p.marked, MAX_SPANS_PER_BATCH);
      if p.ok {
        var sent := Post(link, cfg.tracesEndpoint, p.body);
        if Is2xx(sent.lastHttpCode) {
          var cleared := ClearIds(marked, MAX_SPANS_PER_BATCH);
          var rest := RemoveMarked(cleared);
          RemoveMarkedBounded(cleared);
          RoundShrinks(ss, p.marked, MAX_SPANS_PER_BATCH);
          if CountCompleted(rest) > 0 {
            SendTracesKeepsBound(rest, sent, cfg);
          }
        }
      }
    }
  }

  /** A failed send leaves the table as it was, or as the payload's stamping left it. */
  lemma SendTracesFailureTable(ss: seq<Span>, link: Link, cfg: Config)
    requires !SendTracesModel(ss, link, cfg).ok
    ensures CountCompleted(ss) > 0
    ensures var r := SendTracesModel(ss, link, cfg).spans;
            r == ss || r == MarkSent(ss, TracePayload(cfg, ss).marked)
  {
    // The proof uses only the contracts of these document texts (costly literals).
    hide TracePayload;
  }

  /** A failed send changes nothing in the table but stamps `endTimeNanos = 1` on completed spans
      (those already written to the payload), and they stay in the table. */
  lemma SendTracesFailureOnlyStamps(ss: seq<Span>, link: Link, cfg: Config)
    requires !SendTracesModel(ss, link, cfg).ok
    ensures var r := SendTracesModel(ss, link, cfg).spans;
            |r| == |ss|
            && forall k :: 0 <= k < |ss| ==>
                 r[k] == ss[k] || (IsCompleted(ss[k]) && r[k] == ss[k].(endTimeNanos := 1))
  {
    SendTracesFailureTable(ss, link, cfg);
  }

  /** When the payload fits but the collector refuses it, exactly the selected spans, the first
      min(completed, MAX_SPANS_PER_BATCH), stay in the table stamped `endTimeNanos = 1`. */
  lemma SendTracesRefused(ss: seq<Span>, link: Link, cfg: Config)
    requires Bounded(ss) && CountCompleted(ss) > 0 && cfg.tracesEndpoint != []
    requires TracePayload(cfg, ss).ok && !Is2xx(NextReply(link.replies))
    ensures var r := SendTracesModel(ss, link, cfg);
            !r.ok && r.spans == MarkSent(ss, Min(CountCompleted(ss), MAX_SPANS_PER_BATCH))
            && r.link.lastError == TracesHttpError(NextReply(link.replies))
            && r.link.posts == link.posts + [Request(cfg.tracesEndpoint, TracePayload(cfg, ss).body)]
  {
    DensityCutInert(ss);
  }

  datatype Metered = Metered(metrics: seq<MetricPoint>, link: Link, ok: bool)

  /** sendMetrics (lines 855-911) with the two WiFi readings as inputs. */
  function SendMetricsModel(ms: seq<MetricPoint>, link: Link, cfg: Config, connected: bool, stillConnected: bool): (r: Metered)
    ensures r.ok ==> ms != [] && r.metrics == [] && Is2xx(r.link.lastHttpCode) && r.link.lastError == NoError
    ensures r.metrics == [] || r.metrics == ms
    ensures ms != [] ==> (r.metrics == [] <==> |r.link.posts| == |link.posts| + 1)
    ensures r.link.posts == link.posts
         || r.link.posts == link.posts + [Request(cfg.metricsEndpoint, MetricsDoc(cfg.resource, cfg.render, ms))]
    ensures ms == [] ==> !r.ok && r.link.posts == link.posts && r.link.lastError == NoMetrics
    ensures ms != [] && !connected ==>
              r.link.lastHttpCode == 0 && r.link.lastError == WifiNotConnected
    ensures ms != [] && connected && |MetricsDoc(cfg.resource, cfg.render, ms)| >= CAPACITY ==>
              r.link.lastError == MetricsPayloadOverflow
    ensures ms != [] && (!connected || |MetricsDoc(cfg.resource, cfg.render, ms)| >= CAPACITY || !stillConnected) ==>
              !r.ok && r.metrics == ms && r.link.posts == link.posts && r.link.replies == link.replies
    ensures ms != [] && connected && |MetricsDoc(cfg.resource, cfg.render, ms)| < CAPACITY && !stillConnected ==>
              r.link.lastHttpCode == 0 && r.link.lastError == WifiDisconnectedBeforeSend
    ensures ms != [] && connected && |MetricsDoc(cfg.resource, cfg.render, ms)| < CAPACITY && stillConnected ==>
              r.metrics == []
              && r.link.posts == link.posts + [Request(cfg.metricsEndpoint, MetricsDoc(cfg.resource, cfg.render, ms))]
              && r.link.lastHttpCode == NextReply(link.replies)
              && (r.ok <==> Is2xx(NextReply(link.replies)))
              && r.link.lastError == (if r.ok then NoError else MetricsHttpError(NextReply(link.replies)))
  {
    var doc := MetricsDoc(cfg.resource, cfg.render, ms);
    if ms == [] then Metered(ms, link.(lastError := NoMetrics), false)
    else if !connected then Metered(ms, link.(lastError := WifiNotConnected, lastHttpCode := 0), false)
    else if |doc| >= CAPACITY then Metered(ms, link.(lastError := MetricsPayloadOverflow), false)
    else if !stillConnected then Metered(ms, link.(lastError := WifiDisconnectedBeforeSend, lastHttpCode := 0), false)
    else
      var sent := Post(link, cfg.metricsEndpoint, doc);
      var code := sent.lastHttpCode;
      Metered([], sent.(lastError := if Is2xx(code) then NoError else MetricsHttpError(code)), Is2xx(code))
  }

  datatype Both = Both(spans: seq<Span>, metrics: seq<MetricPoint>, link: Link, ok: bool)

  /** sendMetricsAndTraces (lines 914-977): three WiFi readings (its own, and the two of
      sendMetrics). A missing batch or no completed span is not an error. */
  function SendBothModel(ss: seq<Span>, ms: seq<MetricPoint>, link: Link, cfg: Config,
                         connected: bool, metricsConnected: bool, metricsStillConnected: bool): (r: Both)
    ensures !connected || cfg.tracesEndpoint == [] ==>
              r.spans == ss && r.metrics == ms && !r.ok && r.link.posts == link.posts
              && r.link.replies == link.replies && r.link.lastHttpCode == 0
              && r.link.lastError == (if !connected then WifiNotConnected else NoEndpoint)
    ensures r.ok ==> r.metrics == []
    ensures |r.spans| <= |ss|
  {
    if !connected then Both(ss, ms, link.(lastError := WifiNotConnected, lastHttpCode := 0), false)
    else if cfg.tracesEndpoint == [] then Both(ss, ms, link.(lastError := NoEndpoint, lastHttpCode := 0), false)
    else
      var completed := CountCompleted(ss);
      var m := if ms != [] then SendMetricsModel(ms, link, cfg, metricsConnected, metricsStillConnected)
               else Metered(ms, link, true);
      var t := if completed > 0 then SendTracesModel(ss, m.link, cfg) else Traced(ss, m.link, true);
      Both(t.spans, m.metrics, t.link, m.ok && t.ok)
  }

  /** The two sends of sendMetricsAndTraces once WiFi and the traces endpoint are there
      (lines 940-974): metrics first when there are any, then traces when a span is completed. */
  lemma SendBothSteps(ss: seq<Span>, ms: seq<MetricPoint>, link: Link, cfg: Config,
                      metricsConnected: bool, metricsStillConnected: bool)
    requires cfg.tracesEndpoint != []
    ensures var m := if ms != [] then SendMetricsModel(ms, link, cfg, metricsConnected, metricsStillConnected)
                     else Metered(ms, link, true);
            var t := if CountCompleted(ss) > 0 then SendTracesModel(ss, m.link, cfg) else Traced(ss, m.link, true);
            SendBothModel(ss, ms, link, cfg, true, metricsConnected, metricsStillConnected)
            == Both(t.spans, m.metrics, t.link, m.ok && t.ok)
  {
  }

  /** sendMetricsAndTraces never drops, reorders or alters an active span. */
  lemma SendBothKeepsActives(ss: seq<Span>, ms: seq<MetricPoint>, link: Link, cfg: Config,
                             connected: bool, metricsConnected: bool, metricsStillConnected: bool)
    ensures KeepActive(SendBothModel(ss, ms, link, cfg, connected, metricsConnected, metricsStillConnected).spans)
         == KeepActive(ss)
  {
    if connected && cfg.tracesEndpoint != [] {
      var m := if ms != [] then SendMetricsModel(ms, link, cfg, metricsConnected, metricsStillConnected)
               else Metered(ms, link, true);
      SendTracesKeepsActives(ss, m.link, cfg);
    }
  }

  datatype Cleaned = Cleaned(spans: seq<Span>, link: Link)

  /** The active-span leak valve of cleanupOldSpans (lines 447-472): on a table of at least
      LEAK_THRESHOLD entries, end active spans from the front until at most FORCE_END_TARGET
      entries would remain, then send if any was ended. */
  function ForceEndAndSend(kept: seq<Span>, link: Link, cfg: Config, now: u64): (r: Cleaned)
    ensures Bounded(kept) ==> Bounded(r.spans)
  {
    if |kept| < LEAK_THRESHOLD then Cleaned(kept, link)
    else
      var n := |kept| - FORCE_END_TARGET;
      ForceEndKeepsBound(kept, n, now);
      SendIfEnded(ForceEnd(kept, n, now), Min(n, CountActive(kept)), link, cfg)
  }

  /** Lines 466-472: the spans just force-ended are sent when there are any. */
  function SendIfEnded(ended: seq<Span>, activeEnded: nat, link: Link, cfg: Config): (r: Cleaned)
    ensures Bounded(ended) ==> Bounded(r.spans)
  {
    if activeEnded > 0 then
      var t := SendTracesModel(ended, link, cfg);
      if Bounded(ended) then SendTracesKeepsBound(ended, link, cfg); Cleaned(t.spans, t.link)
      else Cleaned(t.spans, t.link)
    else Cleaned(ended, link)
  }

  /** The three outcomes of the leak valve, one per path through lines 447-472. */
  lemma ValveOutcome(kept: seq<Span>, link: Link, cfg: Config, now: u64)
    ensures |kept| < LEAK_THRESHOLD ==> ForceEndAndSend(kept, link, cfg, now) == Cleaned(kept, link)
    ensures |kept| >= LEAK_THRESHOLD ==>
              var n := |kept| - FORCE_END_TARGET;
              var forced := ForceEnd(kept, n, now);
              ForceEndAndSend(kept, link, cfg, now)
              == if Min(n, CountActive(kept)) > 0
                 then Cleaned(SendTracesModel(forced, link, cfg).spans, SendTracesModel(forced, link, cfg).link)
                 else Cleaned(forced, link)
  {
  }

  /** cleanupOldSpans (lines 409-475). */
  function CleanupModel(ss: seq<Span>, link: Link, cfg: Config, now: u64): Cleaned {
    if |ss| < CLEANUP_THRESHOLD then Cleaned(ss, link)
    else
      var t := SendTracesModel(ss, link, cfg);
      if |t.spans| < CLEANUP_THRESHOLD then Cleaned(t.spans, t.link)
      else
        var kept := if CountInactive(t.spans) > 0 then KeepActive(t.spans) else t.spans;
        ForceEndAndSend(kept, t.link, cfg, now)
  }

  /** Force-ending leaves exactly FORCE_END_TARGET active spans in an all-active table of at least
      LEAK_THRESHOLD entries, and the send after it keeps them. */
  lemma ForceEndAndSendLeaves(kept: seq<Span>, link: Link, cfg: Config, now: u64)
    requires CountInactive(kept) == 0
    ensures var r := ForceEndAndSend(kept, link, cfg, now);
            |r.spans| <= |kept|
            && (|kept| < LEAK_THRESHOLD ==> r.spans == kept)
            && (|kept| >= LEAK_THRESHOLD ==> CountActive(r.spans) == FORCE_END_TARGET)
  {
    ValveOutcome(kept, link, cfg, now);
    // The proof uses only the contracts of these document texts (costly literals), table passes, counts, send transitions.
    hide TracePayload, ForceEndAndSend, SendTracesModel, ForceEnd, KeepActive, CountActive, CountInactive;
    if |kept| >= LEAK_THRESHOLD {
      var n := |kept| - FORCE_END_TARGET;
      var ended := ForceEnd(kept, n, now);
      ForceEndActiveCount(kept, n, now);
      assert Min(n, CountActive(kept)) == n > 0;
      var sent := SendTracesModel(ended, link, cfg).spans;
      SendTracesKeepsActives(ended, link, cfg);
      assert CountActive(sent) == |KeepActive(sent)| == |KeepActive(ended)| == CountActive(ended);
    }
  }

  /** cleanupOldSpans does nothing below CLEANUP_THRESHOLD entries, never grows the table, never
      adds an active span, and leaves either fewer than LEAK_THRESHOLD entries or exactly
      FORCE_END_TARGET active ones. */
  lemma CleanupBounds(ss: seq<Span>, link: Link, cfg: Config, now: u64)
    ensures var r := CleanupModel(ss, link, cfg, now);
            (|ss| < CLEANUP_THRESHOLD ==> r == Cleaned(ss, link))
            && |r.spans| <= |ss|
            && CountActive(r.spans) <= CountActive(ss)
            && (|r.spans| < LEAK_THRESHOLD || CountActive(r.spans) == FORCE_END_TARGET)
  {
    if |ss| >= CLEANUP_THRESHOLD {
      var t := SendTracesModel(ss, link, cfg);
      SendTracesKeepsActives(ss, link, cfg);
      if |t.spans| >= CLEANUP_THRESHOLD {
        var kept := if CountInactive(t.spans) > 0 then KeepActive(t.spans) else t.spans;
        KeepActiveOnlyActive(t.spans);
        if CountInactive(t.spans) == 0 {
          KeepActiveAllActive(t.spans);
        }
        assert kept == KeepActive(t.spans);
        ForceEndAndSendLeaves(kept, t.link, cfg, now);
      }
    } else {
      assert |ss| < LEAK_THRESHOLD;
    }
  }

  /** cleanupOldSpans keeps every span within MAX_SPAN_ATTRS attributes. */
  lemma CleanupKeepsBound(ss: seq<Span>, link: Link, cfg: Config, now: u64)
    requires Bounded(ss)
    ensures Bounded(CleanupModel(ss, link, cfg, now).spans)
  {
    if |ss| >= CLEANUP_THRESHOLD {
      var t := SendTracesModel(ss, link, cfg);
      SendTracesKeepsBound(ss, link, cfg);
      if |t.spans| >= CLEANUP_THRESHOLD {
        var kept := if CountInactive(t.spans) > 0 then KeepActive(t.spans) else t.spans;
        KeepActiveBounded(t.spans);
        assert Bounded(kept);
      }
    }
  }

  datatype Started = Started(spans: seq<Span>, link: Link, spanId: u64)

  /** startSpan (lines 535-573) on the table ss under the current trace id, with the eight random
      bytes of generateRandomId: cleanup from START_CLEANUP_THRESHOLD entries on, then 0 on a
      full table, else the new span appended and its id returned. */
  function StartSpanModel(ss: seq<Span>, link: Link, cfg: Config, traceId: TraceId, name: string,
                          parentSpanId: u64, random: seq<byte>, now: u64): (r: Started)
    requires |random| == 8
  {
    var c := if |ss| >= START_CLEANUP_THRESHOLD then CleanupModel(ss, link, cfg, now) else Cleaned(ss, link);
    if |c.spans| >= MAX_SPANS then Started(c.spans, c.link, 0)
    else
      var id := IdOf(random);
      Started(c.spans + [NewSpan(name, traceId, id, parentSpanId, now)], c.link, id)
  }

  /** What startSpan guarantees: the table stays within MAX_SPANS entries and its attribute
      bound; below START_CLEANUP_THRESHOLD the span is simply appended; otherwise either the new
      span is the last entry and its id (the random bytes read big-endian) is returned, or the
      table is still full after cleanup, 0 is returned and FORCE_END_TARGET spans are active. */
  lemma StartSpanOutcome(ss: seq<Span>, link: Link, cfg: Config, traceId: TraceId, name: string,
                         parentSpanId: u64, random: seq<byte>, now: u64)
    requires |random| == 8 && |ss| <= MAX_SPANS && Bounded(ss)
    ensures var r := StartSpanModel(ss, link, cfg, traceId, name, parentSpanId, random, now);
            var s := NewSpan(name, traceId, IdOf(random), parentSpanId, now);
            |r.spans| <= MAX_SPANS && Bounded(r.spans)
            && (|ss| < START_CLEANUP_THRESHOLD ==> r.spans == ss + [s] && r.link == link && r.spanId == IdOf(random))
            && ((r.spans != [] && r.spans[|r.spans| - 1] == s && r.spanId == IdOf(random)
                 && CountActive(r.spans) <= CountActive(ss) + 1)
                || (r.spanId == 0 && |r.spans| == MAX_SPANS && CountActive(r.spans) == FORCE_END_TARGET))
  {
    var s := NewSpan(name, traceId, IdOf(random), parentSpanId, now);
    var c := if |ss| >= START_CLEANUP_THRESHOLD then CleanupModel(ss, link, cfg, now) else Cleaned(ss, link);
    if |ss| >= START_CLEANUP_THRESHOLD {
      CleanupBounds(ss, link, cfg, now);
      CleanupKeepsBound(ss, link, cfg, now);
    }
    if |c.spans| < MAX_SPANS {
      BoundedSnoc(c.spans, s);
      CountActiveSnoc(c.spans, s);
    }
  }
}
