/** The OTLP request encoders: what they refuse, what they write, and what a consumer sees of it. */
module OtlpEncoder {
  import opened Words
  import opened Protobuf
  import opened Otlp
  import opened OtlpReader
  import Utf8

  // ---- The tests on a record ----

  /** No byte but zero. */
  ghost predicate Blank(value: seq<byte>) {
    forall b :: b in value ==> b == 0
  }

  ghost predicate TraceFault(t: TraceRecord) {
    || Blank(t.traceId) || Blank(t.spanId) || t.name == [] || t.start == 0 || t.end < t.start
    || t.eventCount > |t.events| || t.attributeCount > |t.attributes|
    || exists k :: 0 <= k < t.eventCount && EventFault(t.events[k])
  }

  ghost predicate EventFault(e: Event) {
    e.name == [] || e.time == 0 || e.attributeCount > |e.attributes|
  }

  ghost predicate MetricFault(t: MetricRecord) {
    t.name == [] || t.time == 0 || t.attributeCount > |t.attributes|
  }

  ghost predicate LogFault(t: LogRecord) {
    || t.body == [] || t.time == 0 || (!Blank(t.spanId) && Blank(t.traceId))
    || t.attributeCount > |t.attributes|
  }

  method AcceptTrace(t: TraceRecord) returns (r: bool)
    ensures r <==> TraceAccepted(t)
    ensures r <==>
              && (exists b :: b in t.traceId && b != 0) && (exists b :: b in t.spanId && b != 0)
              && t.name != [] && 0 != t.start <= t.end
              && t.eventCount <= |t.events| && t.attributeCount <= |t.attributes|
              && forall k :: 0 <= k < t.eventCount ==>
                   var e := t.events[k]; e.name != [] && e.time != 0 && e.attributeCount <= |e.attributes|
  {
    Nonblank(t.traceId);
    Nonblank(t.spanId);
    var hasTrace := Nonzero(t.traceId);
    var hasSpan := Nonzero(t.spanId);
    if !hasTrace || !hasSpan || t.name == [] || t.start == 0 || t.end < t.start
       || t.eventCount > |t.events| || t.attributeCount > |t.attributes| {
      return false;
    }
    for index := 0 to t.eventCount
      invariant forall k :: 0 <= k < index ==> EventAccepted(t.events[k])
    {
      var e := t.events[index];
      if e.name == [] || e.time == 0 || e.attributeCount > |e.attributes| {
        return false;
      }
    }
    r := true;
  }

  method AcceptMetric(t: MetricRecord) returns (r: bool)
    ensures r <==> MetricAccepted(t)
    ensures r <==> t.name != [] && t.time != 0 && t.attributeCount <= |t.attributes|
  {
    r := !(t.name == [] || t.time == 0 || t.attributeCount > |t.attributes|);
  }

  method AcceptLog(t: LogRecord) returns (r: bool)
    ensures r <==> LogAccepted(t)
    ensures r <==>
              && t.body != [] && t.time != 0 && t.attributeCount <= |t.attributes|
              && ((forall b :: b in t.spanId ==> b == 0) || exists b :: b in t.traceId && b != 0)
  {
    Nonblank(t.traceId);
    Nonblank(t.spanId);
    var hasSpan := Nonzero(t.spanId);
    var hasTrace := Nonzero(t.traceId);
    r := !(t.body == [] || t.time == 0 || (hasSpan && !hasTrace) || t.attributeCount > |t.attributes|);
  }

  lemma Nonblank(value: seq<byte>)
    ensures AnyNonzero(value) <==> !Blank(value)
  {
    if AnyNonzero(value) {
      var i :| 0 <= i < |value| && value[i] != 0;
      assert value[i] in value;
    }
  }

  lemma RefusedTraces(records: seq<TraceRecord>)
    ensures !TracesAccepted(records) <==> exists i :: 0 <= i < |records| && TraceFault(records[i])
  {
    hide Blank, AnyNonzero;
    forall i | 0 <= i < |records|
      ensures TraceAccepted(records[i]) <==> !TraceFault(records[i])
    {
      Nonblank(records[i].traceId);
      Nonblank(records[i].spanId);
    }
  }

  lemma RefusedMetrics(records: seq<MetricRecord>)
    ensures !MetricsAccepted(records) <==> exists i :: 0 <= i < |records| && MetricFault(records[i])
  {
  }

  lemma RefusedLogs(records: seq<LogRecord>)
    ensures !LogsAccepted(records) <==> exists i :: 0 <= i < |records| && LogFault(records[i])
  {
    hide Blank, AnyNonzero;
    forall i | 0 <= i < |records|
      ensures LogAccepted(records[i]) <==> !LogFault(records[i])
    {
      Nonblank(records[i].traceId);
      Nonblank(records[i].spanId);
    }
  }

  // ---- One request ----

  /** The result of writing one request, and what it leaves in the output. */
  ghost predicate Encoded(r: Result<nat>, before: seq<byte>, output: seq<byte>, m: Metadata,
                          records: seq<seq<Field>>, scratch: nat)
    requires m.resourceAttributeCount <= |m.resourceAttributes|
  {
    var wire := Wire([Request(m, records)]);
    if |records| > 64 || scratch < 64 then r == Err(Exhaustion) && output == before
    else if |wire| > |before| then r == Err(Exhaustion)
    else r == Ok(|wire|) && output == wire + before[|wire|..]
  }

  /** The first n bytes are the encoding, and the others are what they were. */
  ghost predicate Written(n: nat, before: seq<byte>, output: seq<byte>, wire: seq<byte>) {
    n == |wire| <= |output| == |before| && output[..n] == wire && output[n..] == before[n..]
  }

  method EncodeRequest(m: Metadata, records: seq<seq<Field>>, output: array<byte>, scratch: nat)
    returns (r: Result<nat>)
    requires MetadataTyped(m) && m.resourceAttributeCount <= |m.resourceAttributes| && output.Length <= U64_MAX
    modifies output
    ensures Encoded(r, old(output[..]), output[..], m, records, scratch)
    ensures r == Err(Exhaustion)
            <==> |records| > 64 || scratch < 64 || |Wire([Request(m, records)])| > output.Length
    ensures r.Ok? <==> r != Err(Exhaustion)
    ensures r.Ok? ==> Written(r.value, old(output[..]), output[..], Wire([Request(m, records)]))
  {
    hide Wire;
    if |records| > 64 || scratch < 64 {
      return Err(Exhaustion);
    }
    // The source dereferences both texts without checking that there are any.
    Utf8.AsciiWellFormed(SERVICE_NAME);
    var key := Utf8.TextFrom(SERVICE_NAME, 64);
    assert key.Ok?;
    var service := Utf8.TextFrom(m.serviceName, 128);
    assert service.Ok?;
    var resource := [Message(1, AttributeFields(Attribute(key.value, service.value)))]
      + AttributeMessages(1, m.resourceAttributes[..m.resourceAttributeCount]);
    var content := [Message(1, resource), Message(2, [Message(1, ScopeFields(m))] + RecordMessages(records))];
    var writer := new Writer(output);
    var valid := writer.PutMessage(1, content);
    WireOne(Request(m, records));
    if !valid {
      return Err(Exhaustion);
    }
    r := Ok(writer.used);
  }

  lemma MetadataCapacity(m: Metadata)
    requires MetadataTyped(m)
    ensures |m.resourceAttributes| == 16
  {
  }

  // ---- What a consumer may rely on ----

  /** The bytes decode, and everything read from the n records in them is good. */
  ghost predicate Seen<T(!new)>(bytes: seq<byte>, schema: map<nat, Kind>, read: seq<Field> -> T, n: nat,
                                good: T -> bool) {
    var tree := Decode(RequestSchema(schema), bytes);
    && tree.Some? && |ReadBatch(tree.value, read).records| == n
    && forall i :: 0 <= i < n ==> good(ReadBatch(tree.value, read).records[i])
  }

  ghost predicate GoodSpan(v: SpanView) {
    && !Blank(v.traceId) && !Blank(v.spanId) && v.name != [] && 0 < v.start <= v.end
    && forall k :: 0 <= k < |v.events| ==> v.events[k].name != [] && v.events[k].time != 0
  }

  ghost predicate GoodMetric(v: MetricView) {
    v.name != [] && v.time != 0
  }

  /** A span identifier never comes without a trace identifier. */
  ghost predicate GoodLog(v: LogView) {
    v.body != [] && v.time != 0 && (v.spanId != [] ==> v.traceId != [])
  }

  // ---- The three kinds of batches ----

  lemma TracesSeen(m: Metadata, records: seq<TraceRecord>)
    requires m.resourceAttributeCount <= |m.resourceAttributes|
    requires forall i :: 0 <= i < |records| ==> TraceTyped(records[i]) && TraceAccepted(records[i])
    ensures Seen(Wire([Request(m, TraceTrees(records))]), SPAN, ReadSpan, |records|, GoodSpan)
  {
    hide TraceTyped, TraceAccepted, Wire, ReadBatch, GoodSpan, SpanSent;
    TracesReadBack(m, records);
    forall i | 0 <= i < |records|
      ensures GoodSpan(SpanSent(records[i]))
    {
      GoodSpanSent(records[i]);
    }
  }

  lemma GoodSpanSent(t: TraceRecord)
    requires TraceAccepted(t)
    ensures GoodSpan(SpanSent(t))
  {
    Nonblank(t.traceId);
    Nonblank(t.spanId);
    hide Blank, AnyNonzero;
  }

  method EncodeTraces(m: Metadata, records: seq<TraceRecord>, output: array<byte>, scratch: nat)
    returns (r: Result<nat>)
    requires MetadataTyped(m) && output.Length <= U64_MAX
    modifies output
    ensures if m.resourceAttributeCount > 16 || !TracesAccepted(records)
            then r == Err(InvalidInput) && output[..] == old(output[..])
            else Encoded(r, old(output[..]), output[..], m, TraceTrees(records), scratch)
    ensures r == Err(InvalidInput)
            <==> m.resourceAttributeCount > 16 || exists i :: 0 <= i < |records| && TraceFault(records[i])
    ensures r.Ok? ==> r.value <= output.Length
    ensures r.Ok? && (forall i :: 0 <= i < |records| ==> TraceTyped(records[i])) ==>
              Seen(output[..r.value], SPAN, ReadSpan, |records|, GoodSpan)
  {
    hide Encoded, MetadataTyped, TraceFields, TraceAccepted, TraceTyped, Wire, TraceFault, Blank, Seen;
    MetadataCapacity(m);
    RefusedTraces(records);
    if m.resourceAttributeCount > |m.resourceAttributes| {
      return Err(InvalidInput);
    }
    for index := 0 to |records|
      invariant output[..] == old(output[..])
      invariant forall k :: 0 <= k < index ==> TraceAccepted(records[k])
    {
      var accepted := AcceptTrace(records[index]);
      if !accepted {
        return Err(InvalidInput);
      }
    }
    assert TracesAccepted(records);
    r := EncodeRequest(m, TraceTrees(records), output, scratch);
    if r.Ok? && forall i :: 0 <= i < |records| ==> TraceTyped(records[i]) {
      TracesSeen(m, records);
    }
  }

  lemma MetricsSeen(m: Metadata, records: seq<MetricRecord>)
    requires m.resourceAttributeCount <= |m.resourceAttributes|
    requires forall i :: 0 <= i < |records| ==> MetricTyped(records[i]) && MetricAccepted(records[i])
    ensures Seen(Wire([Request(m, MetricTrees(records))]), METRIC, ReadMetric, |records|, GoodMetric)
  {
    hide MetricTyped, MetricAccepted, Wire, ReadBatch, GoodMetric, MetricSent;
    MetricsReadBack(m, records);
    forall i | 0 <= i < |records|
      ensures GoodMetric(MetricSent(records[i]))
    {
      GoodMetricSent(records[i]);
    }
  }

  lemma GoodMetricSent(t: MetricRecord)
    requires MetricAccepted(t)
    ensures GoodMetric(MetricSent(t))
  {
  }

  method EncodeMetrics(m: Metadata, records: seq<MetricRecord>, output: array<byte>, scratch: nat)
    returns (r: Result<nat>)
    requires MetadataTyped(m) && output.Length <= U64_MAX
    modifies output
    ensures if m.resourceAttributeCount > 16 || !MetricsAccepted(records)
            then r == Err(InvalidInput) && output[..] == old(output[..])
            else Encoded(r, old(output[..]), output[..], m, MetricTrees(records), scratch)
    ensures r == Err(InvalidInput)
            <==> m.resourceAttributeCount > 16 || exists i :: 0 <= i < |records| && MetricFault(records[i])
    ensures r.Ok? ==> r.value <= output.Length
    ensures r.Ok? && (forall i :: 0 <= i < |records| ==> MetricTyped(records[i])) ==>
              Seen(output[..r.value], METRIC, ReadMetric, |records|, GoodMetric)
  {
    hide Encoded, MetadataTyped, MetricFields, MetricAccepted, MetricTyped, Wire, MetricFault, Blank, Seen;
    MetadataCapacity(m);
    RefusedMetrics(records);
    if m.resourceAttributeCount > |m.resourceAttributes| {
      return Err(InvalidInput);
    }
    for index := 0 to |records|
      invariant output[..] == old(output[..])
      invariant forall k :: 0 <= k < index ==> MetricAccepted(records[k])
    {
      var accepted := AcceptMetric(records[index]);
      if !accepted {
        return Err(InvalidInput);
      }
    }
    assert MetricsAccepted(records);
    r := EncodeRequest(m, MetricTrees(records), output, scratch);
    if r.Ok? && forall i :: 0 <= i < |records| ==> MetricTyped(records[i]) {
      MetricsSeen(m, records);
    }
  }

  lemma LogsSeen(m: Metadata, records: seq<LogRecord>)
    requires m.resourceAttributeCount <= |m.resourceAttributes|
    requires forall i :: 0 <= i < |records| ==> LogTyped(records[i]) && LogAccepted(records[i])
    ensures Seen(Wire([Request(m, LogTrees(records))]), LOG, ReadLog, |records|, GoodLog)
  {
    hide LogTyped, LogAccepted, Wire, ReadBatch, GoodLog, LogSent;
    LogsReadBack(m, records);
    forall i | 0 <= i < |records|
      ensures GoodLog(LogSent(records[i]))
    {
      GoodLogSent(records[i]);
    }
  }

  lemma GoodLogSent(t: LogRecord)
    requires LogAccepted(t)
    ensures GoodLog(LogSent(t))
  {
  }

  method EncodeLogs(m: Metadata, records: seq<LogRecord>, output: array<byte>, scratch: nat)
    returns (r: Result<nat>)
    requires MetadataTyped(m) && output.Length <= U64_MAX
    modifies output
    ensures if m.resourceAttributeCount > 16 || !LogsAccepted(records)
            then r == Err(InvalidInput) && output[..] == old(output[..])
            else Encoded(r, old(output[..]), output[..], m, LogTrees(records), scratch)
    ensures r == Err(InvalidInput)
            <==> m.resourceAttributeCount > 16 || exists i :: 0 <= i < |records| && LogFault(records[i])
    ensures r.Ok? ==> r.value <= output.Length
    ensures r.Ok? && (forall i :: 0 <= i < |records| ==> LogTyped(records[i])) ==>
              Seen(output[..r.value], LOG, ReadLog, |records|, GoodLog)
  {
    hide Encoded, MetadataTyped, LogFields, LogAccepted, LogTyped, Wire, LogFault, Blank, Seen;
    MetadataCapacity(m);
    RefusedLogs(records);
    if m.resourceAttributeCount > |m.resourceAttributes| {
      return Err(InvalidInput);
    }
    for index := 0 to |records|
      invariant output[..] == old(output[..])
      invariant forall k :: 0 <= k < index ==> LogAccepted(records[k])
    {
      var accepted := AcceptLog(records[index]);
      if !accepted {
        return Err(InvalidInput);
      }
    }
    assert LogsAccepted(records);
    r := EncodeRequest(m, LogTrees(records), output, scratch);
    if r.Ok? && forall i :: 0 <= i < |records| ==> LogTyped(records[i]) {
      LogsSeen(m, records);
    }
  }
}
