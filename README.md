# OpenTelemetry exporter for a microcontroller: a Dafny model

This project models the class `OpenTelemetry` of `src/opentelemetry.h`. The class is a
header-only exporter that a small WiFi device uses to send OTLP/HTTP JSON to a collector.
It keeps three fixed buffers:

- a table of at most 50 spans (`MAX_SPANS`), each with up to 10 attributes;
- a batch of at most 15 gauge data points (`MAX_METRICS`);
- one 4096-character JSON buffer, into which every document is written by bounded appends.

It offers these operations:

- `begin`, `addMetric`, `startNewTrace`, `startSpan`, `addSpanAttribute` and `endSpan`;
- `sendMetrics`, `sendTraces` and `sendMetricsAndTraces`;
- the housekeeping behind them: the payload builders, `removeMarkedSpans`, and `cleanupOldSpans`
  with its forced ending of leaked active spans;
- the small accessors.

The model has two layers.

- **Values** (modules `Types`, `Format`, `Ids`, `JsonBuffer`, `Arena`, `Otlp`, `Exporter`).
  - The records.
  - The `%016llx` and `%llu` renderings.
  - The big-endian id built from eight random bytes.
  - The bounded append and the list writers.
  - The span table as a sequence, with its counts and in-place passes as functions: stamping,
    clearing ids, compaction, forced ending.
  - The two OTLP documents.
  - The send and cleanup operations as transitions of (span table, metric batch, link). The
    link records the collector's scripted replies, the requests posted, `lastHttpCode` and
    `lastErrorMessage`.
- **The object** (module `Telemetry`, class `OpenTelemetry`). It holds the span table and the
  metric batch as arrays with `spanCount` and `metricCount`, plus the counters and the endpoints.
  Each method has the source's loops and early returns. Each method is proved to perform exactly
  the transition of the value layer. The properties the exporter relies on are proved as lemmas
  about those transitions, for example:
  - the table never exceeds 50 entries;
  - no span exceeds 10 attributes;
  - sending never loses, reorders or alters an active span;
  - a failed send only stamps spans;
  - the resend recursion terminates;
  - the 32 hex digits in the JSON decode back to the ids.

The inputs from outside are parameters of the model:

- The clock reading `now`.
- The eight random bytes of each `generateRandomId`.
- The WiFi readings.
- The collector's status codes. These are the field `replies`, consumed one per POST; once they
  run out, a POST fails as a refused connection with -1.
- The `%.2f` rendering of a double, a function given to the constructor.

## Model

| member | source | states |
|---|---|---|
| Format.Hex16 | src/opentelemetry.h:289-291 | `%016llx` gives exactly sixteen lower-case hex digits |
| Format.Hex16RoundTrip | src/opentelemetry.h:289-291 | reading the sixteen digits back as hex gives the 64-bit id |
| Format.Hex16Injective | src/opentelemetry.h:289-291 | two ids with the same rendering are equal |
| Format.HexDigitsRoundTrip | src/opentelemetry.h:289-291 | k zero-padded hex digits of v < 16^k decode to v |
| Format.Decimal | src/opentelemetry.h:309 | `%llu` is a non-empty run of decimal digits with no leading zero except for the value 0 |
| Format.DecimalRoundTrip | src/opentelemetry.h:309 | the decimal digits of a time decode back to it |
| Ids.GenerateRandomId | src/opentelemetry.h:367-381 | the shift-or loop over eight random bytes returns IdOf of those bytes, which fits in 64 bits with no wrap |
| Ids.IdOf | src/opentelemetry.h:376-378 | the id's eight bytes, most significant first, are the eight drawn bytes, so distinct draws give distinct ids |
| Ids.BigEndianRoundTrip | src/opentelemetry.h:376-378 | the bytes of a big-endian value are the bytes it was read from |
| Ids.TraceIdOf | src/opentelemetry.h:505-506 | the high half of a trace id is made of the first eight bytes drawn and the low half of the next eight |
| Ids.NewTraceId | src/opentelemetry.h:525-526 | the two generateRandomId calls build TraceIdOf of the sixteen bytes |
| JsonBuffer.AppendToBuffer | src/opentelemetry.h:109-123 | an append succeeds exactly when the fragment fits with room for the NUL; it then extends the text, and otherwise the committed text is unchanged; the text always stays below 4096 |
| JsonBuffer.AppendInPieces | src/opentelemetry.h:109-123 | two appends succeed exactly when one append of their concatenation does, with the same text |
| JsonBuffer.AppendEach | src/opentelemetry.h:129-155 | a run of early-returning appends succeeds exactly when their concatenation fits, then commits it |
| JsonBuffer.AppendList | src/opentelemetry.h:157-172 | the list loop, with a comma before every element but the first, succeeds exactly when the joined list fits, and then appends it |
| JsonBuffer.AppendDocument | src/opentelemetry.h:125-182 | header, list and closing brackets written from position 0 succeed exactly when the whole document fits, which is then the text |
| JsonBuffer.JoinSnoc | src/opentelemetry.h:160-164 | adding an element adds a comma (unless it is the first) and the element |
| JsonBuffer.JoinNext | src/opentelemetry.h:270-277 | writing element j adds its entry to the list written so far, which never outgrows the whole list |
| JsonBuffer.JoinPrefixGrows | src/opentelemetry.h:270-277 | the list text only grows as elements are written |
| JsonBuffer.FitCount | src/opentelemetry.h:270-354 | the elements written before an overflow: their text fits, and one more does not |
| JsonBuffer.FitCountAt | src/opentelemetry.h:270-354 | the count written before an overflow is the index of the first element that does not fit |
| Arena.CountInactive | src/opentelemetry.h:420-425 | active and inactive spans add up to the table size |
| Arena.CountCompleted | src/opentelemetry.h:190-195 | completed spans are among the inactive ones |
| Arena.TotalAttrsBounded | src/opentelemetry.h:206-211 | the attributes of completed spans total at most 10 per completed span |
| Arena.Picks | src/opentelemetry.h:270-354 | the spans a payload selects are min(n, completed) completed spans |
| Arena.PicksFromTable | src/opentelemetry.h:270-354 | every selected span is a completed entry of the table |
| Arena.MarkSent | src/opentelemetry.h:352 | stamping keeps the table's length and changes only completed spans, to `endTimeNanos = 1` |
| Arena.ClearIds | src/opentelemetry.h:811-824 | clearing ids keeps the length and changes nothing but span ids |
| Arena.ForceEnd | src/opentelemetry.h:453-465 | forced ending keeps the length and changes only active spans, which are ended at `now` |
| Arena.ForceEndActiveCount | src/opentelemetry.h:453-465 | forced ending of n spans leaves active − min(n, active) active spans |
| Arena.RemoveMarked | src/opentelemetry.h:384-406 | compaction never grows the table |
| Arena.RemoveMarkedMembers | src/opentelemetry.h:384-406 | a span survives compaction exactly when it is in the table and not marked |
| Arena.RemoveMarkedKeepsActives | src/opentelemetry.h:384-406 | compaction keeps every active span, in order |
| Arena.RemoveMarkedShrinks | src/opentelemetry.h:384-406 | a marked entry makes compaction shrink the table |
| Arena.RemoveMarkedBounded | src/opentelemetry.h:384-406 | compaction keeps the attribute bound |
| Arena.KeepActive | src/opentelemetry.h:432-444 | dropping the inactive spans leaves as many spans as were active |
| Arena.KeepActiveMembers | src/opentelemetry.h:432-444 | a span survives exactly when it is in the table and active |
| Arena.KeepActiveOnlyActive | src/opentelemetry.h:432-444 | nothing inactive survives |
| Arena.KeepActiveAllActive | src/opentelemetry.h:420-444 | with no inactive span the compaction changes nothing |
| Arena.MarkSentKeepsActives | src/opentelemetry.h:352 | stamping keeps the active spans and their order |
| Arena.ClearIdsKeepsActives | src/opentelemetry.h:811-824 | clearing ids keeps the active spans and their order |
| Arena.RoundShrinks | src/opentelemetry.h:805-836 | a successful round removes at least one span, so the resend at line 833 terminates |
| Arena.NewSpan | src/opentelemetry.h:552-562 | the new span has the name cut to 31 characters, the current trace id, the given ids and start time, no end time and no attributes, and is active |
| Arena.FindFirst | src/opentelemetry.h:584-585 | the index found holds the id and no earlier entry does |
| Otlp.WriteHeader | src/opentelemetry.h:232-266 | the five opening appends succeed exactly when envelope, resource attributes and scope fit, and then write them |
| Otlp.HeaderText | src/opentelemetry.h:129-155 | the five pieces make up the envelope, the three resource attributes and the scope |
| Otlp.SpanJsonsPrefix | src/opentelemetry.h:270-354 | the encodings of the first i spans are the first i encodings |
| Otlp.HeadLayout | src/opentelemetry.h:289-297 | in a span object the 32 trace-id digits start at offset 12 and the 16 span-id digits at offset 56 |
| Otlp.SpanJsonIds | src/opentelemetry.h:289-297 | the hex digits in a span object are the renderings of its trace and span ids |
| Otlp.SpanJsonParent | src/opentelemetry.h:300-305 | a child span carries the parent key and the parent's sixteen digits at offset 74 |
| Otlp.SpanJsonRoot | src/opentelemetry.h:300-309 | a root span has the name key at offset 74, so no parent key |
| Otlp.SpanJsonDecodesIds | src/opentelemetry.h:289-309 | the ids in a span object decode back to the span's ids, and the parent key is there exactly when the span has a parent, whose id it decodes to |
| Otlp.BatchSize | src/opentelemetry.h:203-225 | the batch is between min(completed, 3) and min(completed, 15), and the whole min(completed, 15) unless the attributes average above 15 |
| Otlp.DensityCutInert | src/opentelemetry.h:203-225 | with at most 10 attributes per span the density cut never fires |
| Exporter.Selected | src/opentelemetry.h:203-272 | a trace payload selects between 1 and 15 spans |
| Exporter.PayloadOf | src/opentelemetry.h:255-364 | a payload succeeds exactly when the whole document fits; it then is that document, with every element stamped, and a failure never stamps more elements than there are |
| Exporter.TracePayload | src/opentelemetry.h:185-364 | a successful trace payload stamps all selected spans, at least one, and is shorter than the buffer |
| Exporter.TracePayloadSplit | src/opentelemetry.h:232-266 | a header that does not fit fails with nothing stamped |
| Exporter.SendTracesModel | src/opentelemetry.h:718-853 | sendTraces never grows the table; a failure keeps its size; a success with completed spans shrinks it |
| Exporter.Delivered | src/opentelemetry.h:797-852 | a refused POST keeps the table's size, and an accepted one shrinks it |
| Exporter.SendTracesKeepsActives | src/opentelemetry.h:718-853 | sending traces never drops, reorders or alters an active span |
| Exporter.SendTracesKeepsBound | src/opentelemetry.h:718-853 | sending traces keeps every span within 10 attributes |
| Exporter.SendTracesFailureTable | src/opentelemetry.h:718-853 | a failed send had a completed span, and its table is the old one or the old one with the written spans stamped |
| Exporter.SendTracesFailureOnlyStamps | src/opentelemetry.h:718-853 | a failed send keeps every entry, and changes only completed ones, by stamping them |
| Exporter.SendTracesRefused | src/opentelemetry.h:797-852 | a refused POST leaves exactly the first min(completed, 15) completed spans stamped, records the HTTP error and the one request posted |
| Exporter.SendMetricsModel | src/opentelemetry.h:855-911 | no points, WiFi down (code 0), a document that overflows, or WiFi lost before the send (code 0) each fails with its own error, keeping the batch and posting nothing; otherwise exactly the metrics document is posted, the batch is emptied, the reply becomes the code, and the call succeeds exactly when it is 2xx |
| Exporter.SendBothModel | src/opentelemetry.h:914-977 | without WiFi or a traces endpoint nothing is posted, the table and batch are kept, the code becomes 0 and the call fails with WifiNotConnected or NoEndpoint; success empties the batch; the table never grows |
| Exporter.SendBothKeepsActives | src/opentelemetry.h:914-977 | sendMetricsAndTraces never drops, reorders or alters an active span |
| Exporter.ForceEndAndSend | src/opentelemetry.h:447-472 | the leak valve keeps the attribute bound |
| Exporter.ForceEndAndSendLeaves | src/opentelemetry.h:447-472 | on an all-active table of at least 40 entries the valve leaves exactly 25 active spans, and it never grows the table |
| Exporter.CleanupBounds | src/opentelemetry.h:409-475 | cleanup does nothing below 30 entries, never grows the table or adds an active span, and leaves fewer than 40 entries or exactly 25 active ones |
| Exporter.CleanupKeepsBound | src/opentelemetry.h:409-475 | cleanup keeps every span within 10 attributes |
| Exporter.StartSpanOutcome | src/opentelemetry.h:535-573 | startSpan keeps the table within 50 entries and the attribute bound; below 37 entries it simply appends; otherwise the new span is last and its id returned, or 0 is returned on a table still full with 25 active spans |
| Telemetry.OpenTelemetry.constructor | src/opentelemetry.h:477-482 | the defaults, an empty table and batch, trace id zero, no error text |
| Telemetry.OpenTelemetry.Begin | src/opentelemetry.h:486-510 | the configuration is set, with the traces endpoint falling back to the metrics endpoint; the table and batch are emptied; a fresh trace id is drawn |
| Telemetry.OpenTelemetry.Configure | src/opentelemetry.h:487-496 | the endpoints and service fields as begin sets them |
| Telemetry.OpenTelemetry.Restart | src/opentelemetry.h:498-506 | errors cleared, table and batch empty, the new trace id current |
| Telemetry.OpenTelemetry.AddMetric | src/opentelemetry.h:512-520 | a point is appended exactly when the batch has room, and otherwise nothing changes |
| Telemetry.OpenTelemetry.StartNewTrace | src/opentelemetry.h:523-532 | the current trace id is made of the sixteen drawn bytes |
| Telemetry.OpenTelemetry.FindSpan | src/opentelemetry.h:584-585 | the search loop finds the first entry with the id |
| Telemetry.OpenTelemetry.AddSpanAttribute | src/opentelemetry.h:576-681 | the attribute is appended to the first span with the id exactly when the id is not 0 and that span is active with room; otherwise nothing changes |
| Telemetry.OpenTelemetry.EndSpan | src/opentelemetry.h:684-715 | the first span with the id is ended at `now` exactly when the id is not 0 and that span is active, and the active count drops by one; otherwise nothing changes |
| Telemetry.OpenTelemetry.CountCompletedSpans | src/opentelemetry.h:190-195 | the loop counts the completed spans of the table |
| Telemetry.OpenTelemetry.TotalCompletedAttributes | src/opentelemetry.h:205-211 | the loop sums the attributes of the completed spans |
| Telemetry.OpenTelemetry.CreateBatchPayload | src/opentelemetry.h:125-182 | success exactly when the metrics document fits, which is then the buffer's text |
| Telemetry.OpenTelemetry.AppendSpan | src/opentelemetry.h:293-350 | the appends of one span succeed exactly when its whole object fits, and then add it |
| Telemetry.OpenTelemetry.CreateTracePayload | src/opentelemetry.h:185-364 | with no completed span it fails and changes nothing; otherwise outcome, document and stamping are TracePayload's |
| Telemetry.OpenTelemetry.WriteTrace | src/opentelemetry.h:232-364 | from the header on, outcome, document and stamping are TracePayload's |
| Telemetry.OpenTelemetry.WriteSelectedSpans | src/opentelemetry.h:268-364 | the span loop's outcome, document and stamping are PayloadOf's for the selected spans |
| Telemetry.OpenTelemetry.AppendEntry | src/opentelemetry.h:274-350 | a comma unless first, then the span object, succeeding exactly when both fit |
| Telemetry.OpenTelemetry.StampSent | src/opentelemetry.h:352 | the written span gets `endTimeNanos = 1` and nothing else changes |
| Telemetry.OpenTelemetry.EndAt | src/opentelemetry.h:697-700 | the span is ended at `now` and the active count drops by one |
| Telemetry.OpenTelemetry.ClearSentIds | src/opentelemetry.h:810-824 | the loop zeroes the ids of the first 15 completed spans |
| Telemetry.OpenTelemetry.RemoveMarkedSpans | src/opentelemetry.h:384-406 | the loop leaves exactly RemoveMarked of the table |
| Telemetry.OpenTelemetry.CountInactiveSpans | src/opentelemetry.h:420-425 | the loop counts the inactive spans |
| Telemetry.OpenTelemetry.DropInactiveSpans | src/opentelemetry.h:432-444 | the loop leaves the active spans in order |
| Telemetry.OpenTelemetry.ForceEndOldest | src/opentelemetry.h:453-465 | the loop ends the first |table| − 25 active spans at `now` and returns how many it ended |
| Telemetry.OpenTelemetry.HttpPost | src/opentelemetry.h:800-801 | the request is recorded and the collector's next reply becomes lastHttpCode |
| Telemetry.OpenTelemetry.SendTraces | src/opentelemetry.h:718-853 | the table, link and result are SendTracesModel of the old state |
| Telemetry.OpenTelemetry.SendBatch | src/opentelemetry.h:748-853 | with a completed span and an endpoint, the outcome is SendTracesModel's |
| Telemetry.OpenTelemetry.BuildTrace | src/opentelemetry.h:748-756 | the payload built is TracePayload's, with its stamping |
| Telemetry.OpenTelemetry.Deliver | src/opentelemetry.h:797-852 | after the POST, the outcome is Delivered's |
| Telemetry.OpenTelemetry.Resend | src/opentelemetry.h:805-836 | an accepted POST's follow-up is Delivered's |
| Telemetry.OpenTelemetry.Finish | src/opentelemetry.h:829-836 | the resend while completed spans remain, with its result ignored |
| Telemetry.OpenTelemetry.CleanupOldSpans | src/opentelemetry.h:409-475 | the table and link are CleanupModel of the old state |
| Telemetry.OpenTelemetry.LeakValve | src/opentelemetry.h:447-472 | the table and link are ForceEndAndSend of the compacted table |
| Telemetry.OpenTelemetry.StartSpan | src/opentelemetry.h:535-573 | the table, link and returned id are StartSpanModel of the old state |
| Telemetry.OpenTelemetry.AddSpan | src/opentelemetry.h:541-572 | on a full table it returns 0 and changes nothing; otherwise it appends the new active span and returns IdOf of the bytes |
| Telemetry.OpenTelemetry.SendMetrics | src/opentelemetry.h:855-911 | the batch, link and result are SendMetricsModel of the old state |
| Telemetry.OpenTelemetry.SendMetricsAndTraces | src/opentelemetry.h:914-977 | the table, batch, link and result are SendBothModel of the old state |
| Telemetry.OpenTelemetry.SendQueued | src/opentelemetry.h:940-976 | metrics first when there are points, then traces when a span was completed beforehand |
| Telemetry.OpenTelemetry.GetSpanStats | src/opentelemetry.h:1015-1019 | total, active and completed are the table's size and its active and inactive counts, and total = active + completed |
| Telemetry.OpenTelemetry.CurrentTraceIdHex | src/opentelemetry.h:988-1007 | a zero-size buffer is untouched; any other buffer under 33 is emptied; "no_active_trace" for trace id zero; otherwise 32 lower-case hex digits that decode to the high and low halves |
| Telemetry.OpenTelemetry.InitializeMetricsEndpoint | src/opentelemetry.h:1144-1152 | a non-empty endpoint replaces the old one, and an empty one is ignored |
| Telemetry.OpenTelemetry.InitializeTracesEndpoint | src/opentelemetry.h:1154-1161 | the same for the traces endpoint |

## Left out

- WiFi, HTTP and the collector are not modelled as a network. WiFi readings are parameters of the
  send methods. The collector is a script of status codes and a log of requests.
- `http.getString()` and `http.errorToString()` are not modelled. The error text they give
  becomes the status code inside `MetricsHttpError` and `TracesHttpError`.
- `lastErrorMessage` is the `ErrorKind` enumeration, which names the source's literal messages.
- `getLastError` and `getLastHttpCode` (lines 979-986) only read these fields.
- `debugLog`, `debugSpans` and `debugSpanAttributes` (lines 1022-1141) and the chunked logging of
  payloads in `sendTraces` are left out: they are console output only.
- The clock and the random source are inputs:
  - A call takes one clock reading `now`, which serves every clock read in that call.
  - `generateRandomId` takes the eight bytes that `random(256)` would return.
  - The seeding with `randomSeed` is not modelled.
- `setTimeProvider`, `setRandomSeedProvider`, `getCurrentTimeNanos`, `defaultTimeProvider` and
  `defaultRandomSeedProvider` are not modelled. They are replaced by the inputs above.
- `safeFlushTraces` and `safeSendMetricsAndTraces` (lines 1211-1309) are not modelled. Each
  checks the endpoint or endpoints and reads `getSpanStats` inside a nested `try`/`catch`.
  `safeFlushTraces` then returns early when there is nothing to send. Each makes one call, to
  `sendTraces` or `sendMetricsAndTraces`, inside `try`/`catch`. The model has no exceptions, so
  the wrappers would add only those guards to calls that are modelled.
- The legacy `initializeEndpoint` and `hasValidEndpoint` (lines 1164-1182) are not modelled.
  They only delegate to the metrics-endpoint versions.
- `HasValidMetricsEndpoint` and `HasValidTracesEndpoint` are plain predicates with no contract
  of their own. Endpoints are never null in the model, so these predicates test for a non-empty
  string.
- begin's strings are modelled as never null, so the fallbacks `"default"` and `"0.0.0"` in
  createTracePayload (lines 186-187) cannot be reached.
- The settings in config.h (service name, version, endpoints, SSID) are constructor parameters.
- `%.2f` is the constructor parameter `renderDouble`.
- Otlp.BatchSize: the source's float average is modelled exactly with integers. Both compare
  against 15, and the source truncates the average toward zero.
- The JSON is not escaped and not checked for well-formedness. Names, keys and values are
  written as they are, as the source writes them.
- After a failed payload build, the buffer's text is only known to be below 4096 characters.
  The model does not give the partial text that `vsnprintf` leaves.
- The `memset` that clears the buffer before the trace build in `sendTraces` (line 749) is not
  modelled. `createTracePayload` writes from position 0, like `createBatchPayload` (lines
  125-126), so the committed text does not depend on it.
- Each `char` of a model string stands for one byte of the source's C string. The model is
  therefore exact only for single-byte (ASCII) text. The source's limits count bytes: the size
  `vsnprintf` returns in appendToBuffer (lines 112-115) and the 31 bytes `strncpy` copies into
  `char name[32]` (lines 68 and 553-554). So a name or fragment in a multi-byte encoding is cut
  or refused earlier in the source than in the model, and the source may cut it in the middle of
  a character.
- The source keeps the caller's `const char*` pointers for metric names and for attribute keys
  and string values; the model copies `string` values. A caller's buffer that changes after
  `addMetric` or `addSpanAttribute` would change what the source sends, and the model does not
  capture that aliasing. The source also writes C strings with `%s` and `strncpy`, which stop
  at an embedded NUL. The model does not truncate there.
- Telemetry.OpenTelemetry.CurrentTraceIdHex: when the buffer pointer is null the source writes
  nothing. The model has no null buffer; it returns None only for a zero-size buffer, which the
  source also leaves untouched.
- Span ids are not proved unique. Ids.IdOf is 0 when all eight random bytes are zero, and
  `startSpan` also returns 0 when the table is full.
- The `uint8_t` counters and loop indices are unbounded `nat`. They are always at most 50, so no
  wrap-around can happen.
- StartSpanModel has no contract of its own. Its properties are stated by
  Exporter.StartSpanOutcome.
- Exporter.CleanupModel has no contract of its own. Its properties are stated by
  Exporter.CleanupBounds and Exporter.CleanupKeepsBound.
