/** The records of the OTLP encoders, the field trees they stand for, and what a decoder reads back. */
module Otlp {
  import opened Words
  import opened Protobuf
  import Utf8

  // ---- The records, with the fixed-capacity arrays and counts of the source ----

  datatype Attribute = Attribute(key: seq<byte>, value: seq<byte>)

  datatype Metadata = Metadata(
    serviceName: seq<byte>, scopeName: seq<byte>, scopeVersion: seq<byte>,
    resourceAttributes: seq<Attribute>, resourceAttributeCount: nat)

  datatype Event = Event(time: nat, name: seq<byte>, attributes: seq<Attribute>, attributeCount: nat)

  datatype TraceRecord = TraceRecord(
    traceId: seq<byte>, spanId: seq<byte>, name: seq<byte>, start: nat, end: nat,
    attributes: seq<Attribute>, attributeCount: nat, events: seq<Event>, eventCount: nat)

  datatype MetricRecord = MetricRecord(
    name: seq<byte>, unit: seq<byte>, time: nat, valueBits: nat,
    attributes: seq<Attribute>, attributeCount: nat)

  datatype LogRecord = LogRecord(
    time: nat, severityNumber: nat, severityText: seq<byte>, body: seq<byte>,
    traceId: seq<byte>, spanId: seq<byte>, attributes: seq<Attribute>, attributeCount: nat)

  // What the C++ types of these records guarantee.

  ghost predicate AttributesTyped(attributes: seq<Attribute>) {
    forall i :: 0 <= i < |attributes| ==> Utf8.IsText(attributes[i].key, 64) && Utf8.IsText(attributes[i].value, 128)
  }

  ghost predicate MetadataTyped(m: Metadata) {
    && Utf8.IsText(m.serviceName, 64) && Utf8.IsText(m.scopeName, 64) && Utf8.IsText(m.scopeVersion, 32)
    && |m.resourceAttributes| == 16 && AttributesTyped(m.resourceAttributes)
  }

  ghost predicate EventTyped(e: Event) {
    e.time <= U64_MAX && Utf8.IsText(e.name, 128) && |e.attributes| == 8 && AttributesTyped(e.attributes)
  }

  ghost predicate TraceTyped(t: TraceRecord) {
    && |t.traceId| == 16 && |t.spanId| == 8 && Utf8.IsText(t.name, 128) && t.start <= U64_MAX && t.end <= U64_MAX
    && |t.attributes| == 16 && AttributesTyped(t.attributes)
    && |t.events| == 8 && forall i :: 0 <= i < 8 ==> EventTyped(t.events[i])
  }

  ghost predicate MetricTyped(t: MetricRecord) {
    && Utf8.IsText(t.name, 128) && Utf8.IsText(t.unit, 64) && t.time <= U64_MAX && t.valueBits <= U64_MAX
    && |t.attributes| == 16 && AttributesTyped(t.attributes)
  }

  ghost predicate LogTyped(t: LogRecord) {
    && t.time <= U64_MAX && t.severityNumber <= U32_MAX
    && Utf8.IsText(t.severityText, 32) && Utf8.IsText(t.body, 256) && |t.traceId| == 16 && |t.spanId| == 8
    && |t.attributes| == 16 && AttributesTyped(t.attributes)
  }

  // ---- The field trees the encoders emit ----

  /** "service.name" */
  const SERVICE_NAME: seq<byte> := [115, 101, 114, 118, 105, 99, 101, 46, 110, 97, 109, 101]

  function AttributeFields(a: Attribute): seq<Field> {
    [Bytes(1, a.key), Message(2, [Bytes(1, a.value)])]
  }

  function AttributeMessages(number: nat, attributes: seq<Attribute>): (r: seq<Field>)
    ensures |r| == |attributes|
  {
    seq(|attributes|, i requires 0 <= i < |attributes| => Message(number, AttributeFields(attributes[i])))
  }

  function ResourceFields(m: Metadata): seq<Field>
    requires m.resourceAttributeCount <= |m.resourceAttributes|
  {
    [Message(1, AttributeFields(Attribute(SERVICE_NAME, m.serviceName)))]
    + AttributeMessages(1, m.resourceAttributes[..m.resourceAttributeCount])
  }

  function ScopeFields(m: Metadata): seq<Field> {
    [Bytes(1, m.scopeName), Bytes(2, m.scopeVersion)]
  }

  function RecordMessages(records: seq<seq<Field>>): (r: seq<Field>)
    ensures |r| == |records|
  {
    seq(|records|, i requires 0 <= i < |records| => Message(2, records[i]))
  }

  function Request(m: Metadata, records: seq<seq<Field>>): Field
    requires m.resourceAttributeCount <= |m.resourceAttributes|
  {
    Message(1, [Message(1, ResourceFields(m)),
                Message(2, [Message(1, ScopeFields(m))] + RecordMessages(records))])
  }

  function EventFields(e: Event): seq<Field>
    requires e.attributeCount <= |e.attributes|
  {
    [Fixed64(1, e.time), Bytes(2, e.name)] + AttributeMessages(3, e.attributes[..e.attributeCount])
  }

  function TraceFields(t: TraceRecord): seq<Field>
    requires TraceAccepted(t)
  {
    [Bytes(1, t.traceId), Bytes(2, t.spanId), Bytes(5, t.name), Fixed64(7, t.start), Fixed64(8, t.end)]
    + AttributeMessages(9, t.attributes[..t.attributeCount])
    + seq(t.eventCount, i requires 0 <= i < t.eventCount => Message(11, EventFields(t.events[i])))
  }

  function MetricFields(t: MetricRecord): seq<Field>
    requires MetricAccepted(t)
  {
    [Bytes(1, t.name), Bytes(3, t.unit),
     Message(5, [Message(1, [Fixed64(3, t.time), Fixed64(4, t.valueBits)]
                            + AttributeMessages(7, t.attributes[..t.attributeCount]))])]
  }

  function OptionalBytes(number: nat, value: seq<byte>): seq<Field> {
    if AnyNonzero(value) then [Bytes(number, value)] else []
  }

  function LogFields(t: LogRecord): seq<Field>
    requires LogAccepted(t)
  {
    [Fixed64(1, t.time), Varint(2, t.severityNumber), Bytes(3, t.severityText), Message(5, [Bytes(1, t.body)])]
    + AttributeMessages(6, t.attributes[..t.attributeCount])
    + OptionalBytes(9, t.traceId) + OptionalBytes(10, t.spanId)
  }

  // ---- Which records have a field tree ----

  predicate AnyNonzero(value: seq<byte>) {
    exists i :: 0 <= i < |value| && value[i] != 0
  }

  predicate EventAccepted(e: Event) {
    e.name != [] && e.time != 0 && e.attributeCount <= |e.attributes|
  }

  predicate TraceAccepted(t: TraceRecord) {
    && AnyNonzero(t.traceId) && AnyNonzero(t.spanId) && t.name != [] && t.start != 0 && t.start <= t.end
    && t.eventCount <= |t.events| && t.attributeCount <= |t.attributes|
    && forall i :: 0 <= i < t.eventCount ==> EventAccepted(t.events[i])
  }

  predicate MetricAccepted(t: MetricRecord) {
    t.name != [] && t.time != 0 && t.attributeCount <= |t.attributes|
  }

  predicate LogAccepted(t: LogRecord) {
    && t.body != [] && t.time != 0 && (AnyNonzero(t.spanId) ==> AnyNonzero(t.traceId))
    && t.attributeCount <= |t.attributes|
  }

  method Nonzero(value: seq<byte>) returns (r: bool)
    ensures r <==> AnyNonzero(value)
  {
    for index := 0 to |value|
      invariant forall k :: 0 <= k < index ==> value[k] == 0
    {
      if value[index] != 0 {
        return true;
      }
    }
    r := false;
  }

  predicate TracesAccepted(records: seq<TraceRecord>) {
    forall i :: 0 <= i < |records| ==> TraceAccepted(records[i])
  }

  function TraceTrees(records: seq<TraceRecord>): (r: seq<seq<Field>>)
    requires TracesAccepted(records)
    ensures |r| == |records|
  {
    seq(|records|, i requires 0 <= i < |records| => TraceFields(records[i]))
  }

  predicate MetricsAccepted(records: seq<MetricRecord>) {
    forall i :: 0 <= i < |records| ==> MetricAccepted(records[i])
  }

  function MetricTrees(records: seq<MetricRecord>): (r: seq<seq<Field>>)
    requires MetricsAccepted(records)
    ensures |r| == |records|
  {
    seq(|records|, i requires 0 <= i < |records| => MetricFields(records[i]))
  }

  predicate LogsAccepted(records: seq<LogRecord>) {
    forall i :: 0 <= i < |records| ==> LogAccepted(records[i])
  }

  function LogTrees(records: seq<LogRecord>): (r: seq<seq<Field>>)
    requires LogsAccepted(records)
    ensures |r| == |records|
  {
    seq(|records|, i requires 0 <= i < |records| => LogFields(records[i]))
  }

  // ---- What a decoder reads back ----

  const ANY_VALUE: map<nat, Kind> := map[1 := BytesKind]
  const KEY_VALUE: map<nat, Kind> := map[1 := BytesKind, 2 := MessageKind(ANY_VALUE)]
  const RESOURCE: map<nat, Kind> := map[1 := MessageKind(KEY_VALUE)]
  const SCOPE: map<nat, Kind> := map[1 := BytesKind, 2 := BytesKind]
  const EVENT: map<nat, Kind> := map[1 := Fixed64Kind, 2 := BytesKind, 3 := MessageKind(KEY_VALUE)]
  const SPAN: map<nat, Kind> := map[1 := BytesKind, 2 := BytesKind, 5 := BytesKind, 7 := Fixed64Kind,
    8 := Fixed64Kind, 9 := MessageKind(KEY_VALUE), 11 := MessageKind(EVENT)]
  const POINT: map<nat, Kind> := map[3 := Fixed64Kind, 4 := Fixed64Kind, 7 := MessageKind(KEY_VALUE)]
  const GAUGE: map<nat, Kind> := map[1 := MessageKind(POINT)]
  const METRIC: map<nat, Kind> := map[1 := BytesKind, 3 := BytesKind, 5 := MessageKind(GAUGE)]
  const LOG: map<nat, Kind> := map[1 := Fixed64Kind, 2 := VarintKind, 3 := BytesKind,
    5 := MessageKind(ANY_VALUE), 6 := MessageKind(KEY_VALUE), 9 := BytesKind, 10 := BytesKind]

  /** The export request whose records follow `record`. */
  function RequestSchema(record: map<nat, Kind>): map<nat, Kind> {
    var scoped := map[1 := MessageKind(SCOPE), 2 := MessageKind(record)];
    map[1 := MessageKind(map[1 := MessageKind(RESOURCE), 2 := MessageKind(scoped)])]
  }

  lemma AttributesConform(schema: map<nat, Kind>, number: nat, attributes: seq<Attribute>)
    requires number in schema && schema[number] == MessageKind(KEY_VALUE)
    ensures Conforms(schema, AttributeMessages(number, attributes))
  {
    forall a: Attribute
      ensures Conforms(KEY_VALUE, AttributeFields(a))
    {
      assert Conforms(ANY_VALUE, [Bytes(1, a.value)]);
    }
  }

  lemma EventConforms(e: Event)
    requires e.attributeCount <= |e.attributes| && EventTyped(e)
    ensures Conforms(EVENT, EventFields(e))
  {
    AttributesConform(EVENT, 3, e.attributes[..e.attributeCount]);
  }

  lemma TraceConforms(t: TraceRecord)
    requires TraceTyped(t) && TraceAccepted(t)
    ensures Conforms(SPAN, TraceFields(t))
  {
    AttributesConform(SPAN, 9, t.attributes[..t.attributeCount]);
    forall i | 0 <= i < t.eventCount
      ensures FieldConforms(SPAN, Message(11, EventFields(t.events[i])))
    {
      assert EventAccepted(t.events[i]);
      EventConforms(t.events[i]);
    }
  }

  lemma MetricConforms(t: MetricRecord)
    requires MetricTyped(t) && MetricAccepted(t)
    ensures Conforms(METRIC, MetricFields(t))
  {
    var attributes := AttributeMessages(7, t.attributes[..t.attributeCount]);
    AttributesConform(POINT, 7, t.attributes[..t.attributeCount]);
    var point := [Fixed64(3, t.time), Fixed64(4, t.valueBits)] + attributes;
    assert Conforms(POINT, point);
    assert Conforms(GAUGE, [Message(1, point)]);
  }

  lemma LogConforms(t: LogRecord)
    requires LogTyped(t) && LogAccepted(t)
    ensures Conforms(LOG, LogFields(t))
  {
    AttributesConform(LOG, 6, t.attributes[..t.attributeCount]);
    assert Conforms(ANY_VALUE, [Bytes(1, t.body)]);
  }

  lemma RequestConforms(m: Metadata, records: seq<seq<Field>>, record: map<nat, Kind>)
    requires m.resourceAttributeCount <= |m.resourceAttributes|
    requires forall i :: 0 <= i < |records| ==> Conforms(record, records[i])
    ensures Conforms(RequestSchema(record), [Request(m, records)])
  {
    var scoped := map[1 := MessageKind(SCOPE), 2 := MessageKind(record)];
    var batch := map[1 := MessageKind(RESOURCE), 2 := MessageKind(scoped)];
    var service := Attribute(SERVICE_NAME, m.serviceName);
    AttributesConform(RESOURCE, 1, [service]);
    assert FieldConforms(RESOURCE, AttributeMessages(1, [service])[0]);
    AttributesConform(RESOURCE, 1, m.resourceAttributes[..m.resourceAttributeCount]);
    assert Conforms(RESOURCE, ResourceFields(m));
    assert Conforms(SCOPE, ScopeFields(m));
    var content := [Message(1, ScopeFields(m))] + RecordMessages(records);
    assert Conforms(scoped, content);
    assert Conforms(batch, [Message(1, ResourceFields(m)), Message(2, content)]);
  }

  /** Decoding an encoded trace request returns the whole field tree of the batch. */
  lemma TracesDecode(m: Metadata, records: seq<TraceRecord>)
    requires m.resourceAttributeCount <= |m.resourceAttributes|
    requires forall i :: 0 <= i < |records| ==> TraceTyped(records[i]) && TraceAccepted(records[i])
    ensures Decode(RequestSchema(SPAN), Wire([Request(m, TraceTrees(records))]))
         == Some([Request(m, TraceTrees(records))])
  {
    forall i | 0 <= i < |records|
      ensures Conforms(SPAN, TraceTrees(records)[i])
    {
      TraceConforms(records[i]);
    }
    RequestConforms(m, TraceTrees(records), SPAN);
    WireRoundTrip(RequestSchema(SPAN), [Request(m, TraceTrees(records))]);
  }

  lemma MetricsDecode(m: Metadata, records: seq<MetricRecord>)
    requires m.resourceAttributeCount <= |m.resourceAttributes|
    requires forall i :: 0 <= i < |records| ==> MetricTyped(records[i]) && MetricAccepted(records[i])
    ensures Decode(RequestSchema(METRIC), Wire([Request(m, MetricTrees(records))]))
         == Some([Request(m, MetricTrees(records))])
  {
    forall i | 0 <= i < |records|
      ensures Conforms(METRIC, MetricTrees(records)[i])
    {
      MetricConforms(records[i]);
    }
    RequestConforms(m, MetricTrees(records), METRIC);
    WireRoundTrip(RequestSchema(METRIC), [Request(m, MetricTrees(records))]);
  }

  lemma LogsDecode(m: Metadata, records: seq<LogRecord>)
    requires m.resourceAttributeCount <= |m.resourceAttributes|
    requires forall i :: 0 <= i < |records| ==> LogTyped(records[i]) && LogAccepted(records[i])
    ensures Decode(RequestSchema(LOG), Wire([Request(m, LogTrees(records))]))
         == Some([Request(m, LogTrees(records))])
  {
    forall i | 0 <= i < |records|
      ensures Conforms(LOG, LogTrees(records)[i])
    {
      LogConforms(records[i]);
    }
    RequestConforms(m, LogTrees(records), LOG);
    WireRoundTrip(RequestSchema(LOG), [Request(m, LogTrees(records))]);
  }

  // ---- No size wraps around ----

  /** More than any batch that the record types allow can need. */
  const REQUEST_BOUND: nat := 0x20_0000

  const ATTRIBUTE_BOUND: nat := 212
  const EVENT_BOUND: nat := 1843
  const RECORD_BOUND: nat := 18326

  lemma MessageBound(number: nat, fields: seq<Field>)
    requires number < 16 && |Wire(fields)| < 0x1000_0000
    ensures |WireField(Message(number, fields))| <= |Wire(fields)| + 5
  {
    hide Wire;
    ShortDelimited(number, Wire(fields));
  }

  lemma BytesBound(number: nat, bytes: seq<byte>)
    requires number < 16 && |bytes| < 0x1000_0000
    ensures |WireField(Bytes(number, bytes))| <= |bytes| + 5
  {
    ShortDelimited(number, bytes);
  }

  lemma WireTwo(a: Field, b: Field)
    ensures |Wire([a, b])| == |WireField(a)| + |WireField(b)|
  {
    hide WireField;
    assert [a, b] == [a] + [b];
    WireConcat([a], [b]);
    WireOne(a);
    WireOne(b);
  }

  lemma AttributeBound(number: nat, a: Attribute)
    requires number < 16 && |a.key| <= 64 && |a.value| <= 128
    ensures |WireField(Message(number, AttributeFields(a)))| <= ATTRIBUTE_BOUND
  {
    hide Wire, WireField;
    var value := [Bytes(1, a.value)];
    WireOne(value[0]);
    BytesBound(1, a.value);
    MessageBound(2, value);
    BytesBound(1, a.key);
    WireTwo(Bytes(1, a.key), Message(2, value));
    MessageBound(number, AttributeFields(a));
  }

  lemma AttributesBound(number: nat, attributes: seq<Attribute>, count: nat)
    requires number < 16 && AttributesTyped(attributes) && count <= |attributes|
    ensures |Wire(AttributeMessages(number, attributes[..count]))| <= ATTRIBUTE_BOUND * count
  {
    hide Wire, WireField;
    var messages := AttributeMessages(number, attributes[..count]);
    forall i | 0 <= i < count
      ensures |WireField(messages[i])| <= ATTRIBUTE_BOUND
    {
      AttributeBound(number, attributes[i]);
    }
    WireBound(messages, ATTRIBUTE_BOUND);
  }

  lemma EventBound(e: Event)
    requires EventTyped(e) && e.attributeCount <= |e.attributes|
    ensures |WireField(Message(11, EventFields(e)))| <= EVENT_BOUND
  {
    hide Wire, WireField, AttributesTyped;
    ShortFixed64(1, e.time);
    BytesBound(2, e.name);
    WireTwo(Fixed64(1, e.time), Bytes(2, e.name));
    AttributesBound(3, e.attributes, e.attributeCount);
    WireConcat([Fixed64(1, e.time), Bytes(2, e.name)], AttributeMessages(3, e.attributes[..e.attributeCount]));
    MessageBound(11, EventFields(e));
  }

  lemma EventsBound(t: TraceRecord)
    requires TraceTyped(t) && TraceAccepted(t)
    ensures var messages :=
              seq(t.eventCount, i requires 0 <= i < t.eventCount => Message(11, EventFields(t.events[i])));
            |Wire(messages)| <= EVENT_BOUND * 8
  {
    hide Wire, WireField;
    var messages := seq(t.eventCount, i requires 0 <= i < t.eventCount => Message(11, EventFields(t.events[i])));
    forall i | 0 <= i < t.eventCount
      ensures |WireField(messages[i])| <= EVENT_BOUND
    {
      assert EventAccepted(t.events[i]);
      EventBound(t.events[i]);
    }
    WireBound(messages, EVENT_BOUND);
  }

  lemma TraceBound(t: TraceRecord)
    requires TraceTyped(t) && TraceAccepted(t)
    ensures |Wire(TraceFields(t))| <= RECORD_BOUND - 5
  {
    hide Wire, WireField, AttributesTyped, EventTyped;
    var ids, times := [Bytes(1, t.traceId), Bytes(2, t.spanId)], [Fixed64(7, t.start), Fixed64(8, t.end)];
    var attributes := AttributeMessages(9, t.attributes[..t.attributeCount]);
    var events := seq(t.eventCount, i requires 0 <= i < t.eventCount => Message(11, EventFields(t.events[i])));
    BytesBound(1, t.traceId);
    BytesBound(2, t.spanId);
    WireTwo(ids[0], ids[1]);
    BytesBound(5, t.name);
    WireOne(Bytes(5, t.name));
    ShortFixed64(7, t.start);
    ShortFixed64(8, t.end);
    WireTwo(times[0], times[1]);
    AttributesBound(9, t.attributes, t.attributeCount);
    EventsBound(t);
    assert TraceFields(t) == ids + [Bytes(5, t.name)] + times + attributes + events;
    WireConcat(ids, [Bytes(5, t.name)]);
    WireConcat(ids + [Bytes(5, t.name)], times);
    WireConcat(ids + [Bytes(5, t.name)] + times, attributes);
    WireConcat(ids + [Bytes(5, t.name)] + times + attributes, events);
  }

  lemma MetricBound(t: MetricRecord)
    requires MetricTyped(t) && MetricAccepted(t)
    ensures |Wire(MetricFields(t))| <= RECORD_BOUND - 5
  {
    hide Wire, WireField, AttributesTyped;
    var values := [Fixed64(3, t.time), Fixed64(4, t.valueBits)];
    var attributes := AttributeMessages(7, t.attributes[..t.attributeCount]);
    ShortFixed64(3, t.time);
    ShortFixed64(4, t.valueBits);
    WireTwo(values[0], values[1]);
    AttributesBound(7, t.attributes, t.attributeCount);
    WireConcat(values, attributes);
    MessageBound(1, values + attributes);
    WireOne(Message(1, values + attributes));
    MessageBound(5, [Message(1, values + attributes)]);
    WireOne(Message(5, [Message(1, values + attributes)]));
    BytesBound(1, t.name);
    BytesBound(3, t.unit);
    WireTwo(Bytes(1, t.name), Bytes(3, t.unit));
    assert MetricFields(t) == [Bytes(1, t.name), Bytes(3, t.unit)] + [Message(5, [Message(1, values + attributes)])];
    WireConcat([Bytes(1, t.name), Bytes(3, t.unit)], [Message(5, [Message(1, values + attributes)])]);
  }

  lemma SeverityBound(severity: nat)
    requires severity <= U32_MAX
    ensures |WireField(Varint(2, severity))| <= 6
  {
    ShortVarint(16);
    if severity >= 0x1000_0000 {
      assert VarintBytes(severity) == [0x80 + severity % 0x80] + VarintBytes(severity / 0x80);
      ShortVarint(severity / 0x80);
    } else {
      ShortVarint(severity);
    }
  }

  lemma OptionalBound(number: nat, value: seq<byte>)
    requires number < 16 && |value| <= 16
    ensures |Wire(OptionalBytes(number, value))| <= 21
  {
    hide WireField;
    BytesBound(number, value);
    WireOne(Bytes(number, value));
  }

  lemma LogBound(t: LogRecord)
    requires LogTyped(t) && LogAccepted(t)
    ensures |Wire(LogFields(t))| <= RECORD_BOUND - 5
  {
    hide Wire, WireField, AttributesTyped;
    var time, body := [Fixed64(1, t.time), Varint(2, t.severityNumber)], Message(5, [Bytes(1, t.body)]);
    var texts := [Bytes(3, t.severityText), body];
    var attributes := AttributeMessages(6, t.attributes[..t.attributeCount]);
    var trace, span := OptionalBytes(9, t.traceId), OptionalBytes(10, t.spanId);
    ShortFixed64(1, t.time);
    SeverityBound(t.severityNumber);
    WireTwo(time[0], time[1]);
    BytesBound(1, t.body);
    WireOne(Bytes(1, t.body));
    MessageBound(5, [Bytes(1, t.body)]);
    BytesBound(3, t.severityText);
    WireTwo(texts[0], texts[1]);
    AttributesBound(6, t.attributes, t.attributeCount);
    OptionalBound(9, t.traceId);
    OptionalBound(10, t.spanId);
    assert LogFields(t) == time + texts + attributes + trace + span;
    WireConcat(time, texts);
    WireConcat(time + texts, attributes);
    WireConcat(time + texts + attributes, trace);
    WireConcat(time + texts + attributes + trace, span);
  }

  lemma ResourceBound(m: Metadata)
    requires MetadataTyped(m) && m.resourceAttributeCount <= |m.resourceAttributes|
    ensures |Wire(ResourceFields(m))| <= ATTRIBUTE_BOUND * 17
  {
    hide Wire, WireField, AttributesTyped;
    var service := Attribute(SERVICE_NAME, m.serviceName);
    AttributeBound(1, service);
    WireOne(Message(1, AttributeFields(service)));
    AttributesBound(1, m.resourceAttributes, m.resourceAttributeCount);
    WireConcat([Message(1, AttributeFields(service))],
               AttributeMessages(1, m.resourceAttributes[..m.resourceAttributeCount]));
  }

  lemma RecordsBound(m: Metadata, records: seq<seq<Field>>)
    requires MetadataTyped(m) && |records| <= 64
    requires forall i :: 0 <= i < |records| ==> |Wire(records[i])| <= RECORD_BOUND - 5
    ensures |Wire([Message(1, ScopeFields(m))] + RecordMessages(records))| <= 111 + RECORD_BOUND * 64
  {
    hide Wire, WireField, AttributesTyped;
    BytesBound(1, m.scopeName);
    BytesBound(2, m.scopeVersion);
    WireTwo(Bytes(1, m.scopeName), Bytes(2, m.scopeVersion));
    MessageBound(1, ScopeFields(m));
    WireOne(Message(1, ScopeFields(m)));
    var messages := RecordMessages(records);
    forall i | 0 <= i < |records|
      ensures |WireField(messages[i])| <= RECORD_BOUND
    {
      MessageBound(2, records[i]);
    }
    WireBound(messages, RECORD_BOUND);
    WireConcat([Message(1, ScopeFields(m))], messages);
  }

  /** A whole request: every size computed on the way is part of this one, so none wraps around. */
  lemma RequestBound(m: Metadata, records: seq<seq<Field>>)
    requires MetadataTyped(m) && m.resourceAttributeCount <= |m.resourceAttributes| && |records| <= 64
    requires forall i :: 0 <= i < |records| ==> |Wire(records[i])| <= RECORD_BOUND - 5
    ensures |Wire([Request(m, records)])| <= REQUEST_BOUND < U64_MAX
  {
    hide Wire, WireField, MetadataTyped, ScopeFields, ResourceFields;
    var scoped := [Message(1, ScopeFields(m))] + RecordMessages(records);
    ResourceBound(m);
    MessageBound(1, ResourceFields(m));
    RecordsBound(m, records);
    MessageBound(2, scoped);
    WireTwo(Message(1, ResourceFields(m)), Message(2, scoped));
    MessageBound(1, [Message(1, ResourceFields(m)), Message(2, scoped)]);
    WireOne(Request(m, records));
  }

  /** A batch of valid records is refused for want of room only if the output is below the bound. */
  lemma BatchesFit(m: Metadata, traces: seq<TraceRecord>, metrics: seq<MetricRecord>, logs: seq<LogRecord>)
    requires MetadataTyped(m) && m.resourceAttributeCount <= |m.resourceAttributes|
    requires |traces| <= 64 && forall i :: 0 <= i < |traces| ==> TraceTyped(traces[i]) && TraceAccepted(traces[i])
    requires |metrics| <= 64 && forall i :: 0 <= i < |metrics| ==> MetricTyped(metrics[i]) && MetricAccepted(metrics[i])
    requires |logs| <= 64 && forall i :: 0 <= i < |logs| ==> LogTyped(logs[i]) && LogAccepted(logs[i])
    ensures |Wire([Request(m, TraceTrees(traces))])| <= REQUEST_BOUND
    ensures |Wire([Request(m, MetricTrees(metrics))])| <= REQUEST_BOUND
    ensures |Wire([Request(m, LogTrees(logs))])| <= REQUEST_BOUND
  {
    hide Wire, TraceFields, MetricFields, LogFields, MetadataTyped, TraceAccepted, MetricAccepted,
      LogAccepted, TraceTyped, MetricTyped, LogTyped;
    forall i | 0 <= i < |traces|
      ensures |Wire(TraceTrees(traces)[i])| <= RECORD_BOUND - 5
    {
      TraceBound(traces[i]);
    }
    RequestBound(m, TraceTrees(traces));
    forall i | 0 <= i < |metrics|
      ensures |Wire(MetricTrees(metrics)[i])| <= RECORD_BOUND - 5
    {
      MetricBound(metrics[i]);
    }
    RequestBound(m, MetricTrees(metrics));
    forall i | 0 <= i < |logs|
      ensures |Wire(LogTrees(logs)[i])| <= RECORD_BOUND - 5
    {
      LogBound(logs[i]);
    }
    RequestBound(m, LogTrees(logs));
  }
}
