/**
 The bytes of an OTLP request, written out: the tag of every field as the byte it is, and in front
 of everything nested its length. A tag is eight times the field number plus the wire type: 0 for
 a varint, 1 for a 64-bit number, 2 for bytes and messages.
 */
module OtlpBytes {
  import opened Words
  import opened Protobuf
  import opened Otlp

  /** A tag, a length, and so many bytes. */
  function Part(tag: byte, bytes: seq<byte>): seq<byte> {
    [tag] + VarintBytes(|bytes|) + bytes
  }

  /** A tag, and a number in eight bytes. */
  function Number(tag: byte, value: nat): seq<byte> {
    [tag] + LittleEndian(value, 8)
  }

  /** A field for each of several parts, all with the same tag. */
  function Repeated(tag: byte, parts: seq<seq<byte>>): seq<byte> {
    if parts == [] then [] else Part(tag, parts[0]) + Repeated(tag, parts[1..])
  }

  function AttributeBytes(a: Attribute): seq<byte> {
    Part(0x0A, a.key) + Part(0x12, Part(0x0A, a.value))
  }

  function AttributesBytes(attributes: seq<Attribute>): (r: seq<seq<byte>>)
    ensures |r| == |attributes|
  {
    if attributes == [] then [] else [AttributeBytes(attributes[0])] + AttributesBytes(attributes[1..])
  }

  function EventBytes(e: Event): seq<byte>
    requires e.attributeCount <= |e.attributes|
  {
    Number(0x09, e.time) + Part(0x12, e.name) + Repeated(0x1A, AttributesBytes(e.attributes[..e.attributeCount]))
  }

  function EventsBytes(events: seq<Event>): (r: seq<seq<byte>>)
    requires forall i :: 0 <= i < |events| ==> events[i].attributeCount <= |events[i].attributes|
    ensures |r| == |events|
  {
    if events == [] then [] else [EventBytes(events[0])] + EventsBytes(events[1..])
  }

  function SpanBytes(t: TraceRecord): seq<byte>
    requires TraceAccepted(t)
  {
    (Part(0x0A, t.traceId) + Part(0x12, t.spanId)) + Part(0x2A, t.name) + (Number(0x39, t.start) + Number(0x41, t.end))
    + Repeated(0x4A, AttributesBytes(t.attributes[..t.attributeCount]))
    + Repeated(0x5A, EventsBytes(t.events[..t.eventCount]))
  }

  function MetricBytes(t: MetricRecord): seq<byte>
    requires MetricAccepted(t)
  {
    var point := (Number(0x19, t.time) + Number(0x21, t.valueBits))
                 + Repeated(0x3A, AttributesBytes(t.attributes[..t.attributeCount]));
    (Part(0x0A, t.name) + Part(0x1A, t.unit)) + Part(0x2A, Part(0x0A, point))
  }

  function LogBytes(t: LogRecord): seq<byte>
    requires LogAccepted(t)
  {
    (Number(0x09, t.time) + ([0x10] + VarintBytes(t.severityNumber)))
    + (Part(0x1A, t.severityText) + Part(0x2A, Part(0x0A, t.body)))
    + Repeated(0x32, AttributesBytes(t.attributes[..t.attributeCount]))
    + OptionalPart(0x4A, t.traceId) + OptionalPart(0x52, t.spanId)
  }

  /** Identifiers that are all zero are left out. */
  function OptionalPart(tag: byte, bytes: seq<byte>): seq<byte> {
    if exists i :: 0 <= i < |bytes| && bytes[i] != 0 then Part(tag, bytes) else []
  }

  function RequestBytes(m: Metadata, records: seq<seq<byte>>): seq<byte>
    requires m.resourceAttributeCount <= |m.resourceAttributes|
  {
    var resource := Part(0x0A, AttributeBytes(Attribute(SERVICE_NAME, m.serviceName)))
                    + Repeated(0x0A, AttributesBytes(m.resourceAttributes[..m.resourceAttributeCount]));
    var scope := Part(0x0A, m.scopeName) + Part(0x12, m.scopeVersion);
    Part(0x0A, Part(0x0A, resource) + Part(0x12, Part(0x0A, scope) + Repeated(0x12, records)))
  }

  // ---- The field trees have these bytes ----

  /** The tag of a low field number is one byte. */
  lemma TagByte(number: nat, wire: nat)
    requires number < 16 && wire < 8
    ensures Tag(number, wire) == [8 * number + wire]
  {
  }

  lemma BytesField(number: nat, bytes: seq<byte>)
    requires number < 16
    ensures WireField(Bytes(number, bytes)) == Part(8 * number + 2, bytes)
  {
    hide VarintBytes;
    TagByte(number, 2);
  }

  lemma MessageField(number: nat, fields: seq<Field>)
    requires number < 16
    ensures WireField(Message(number, fields)) == Part(8 * number + 2, Wire(fields))
  {
    hide VarintBytes;
    TagByte(number, 2);
  }

  lemma FixedField(number: nat, value: nat)
    requires number < 16
    ensures WireField(Fixed64(number, value)) == Number(8 * number + 1, value)
  {
    TagByte(number, 1);
  }

  lemma TwoFields(a: Field, b: Field)
    ensures Wire([a, b]) == WireField(a) + WireField(b)
  {
    hide WireField;
    assert [a, b] == [a] + [b];
    WireConcat([a], [b]);
    WireOne(a);
    WireOne(b);
  }

  lemma AttributeWire(a: Attribute)
    ensures Wire(AttributeFields(a)) == AttributeBytes(a)
  {
    hide Wire, WireField, Part;
    var value := [Bytes(1, a.value)];
    WireOne(value[0]);
    BytesField(1, a.value);
    BytesField(1, a.key);
    MessageField(2, value);
    TwoFields(Bytes(1, a.key), Message(2, value));
  }

  /** Messages with one number are repeated parts with one tag. */
  lemma {:induction false} RepeatedWire(number: nat, messages: seq<Field>, parts: seq<seq<byte>>)
    requires number < 16 && |messages| == |parts|
    requires forall i :: 0 <= i < |messages| ==>
               && messages[i].Message? && messages[i].number == number && Wire(messages[i].fields) == parts[i]
    ensures Wire(messages) == Repeated(8 * number + 2, parts)
    decreases |messages|
  {
    hide WireField, Part;
    if messages != [] {
      MessageField(number, messages[0].fields);
      RepeatedWire(number, messages[1..], parts[1..]);
    }
  }

  lemma {:induction false} AttributesAt(attributes: seq<Attribute>, i: nat)
    requires i < |attributes|
    ensures AttributesBytes(attributes)[i] == AttributeBytes(attributes[i])
  {
    if i > 0 {
      AttributesAt(attributes[1..], i - 1);
    }
  }

  lemma AttributesWire(number: nat, attributes: seq<Attribute>)
    requires number < 16
    ensures Wire(AttributeMessages(number, attributes)) == Repeated(8 * number + 2, AttributesBytes(attributes))
  {
    hide Wire, Repeated, AttributesBytes, AttributeBytes, AttributeFields;
    var messages := AttributeMessages(number, attributes);
    forall i | 0 <= i < |attributes|
      ensures Wire(messages[i].fields) == AttributesBytes(attributes)[i]
    {
      AttributeWire(attributes[i]);
      AttributesAt(attributes, i);
    }
    RepeatedWire(number, messages, AttributesBytes(attributes));
  }

  lemma EventWire(e: Event)
    requires e.attributeCount <= |e.attributes|
    ensures Wire(EventFields(e)) == EventBytes(e)
  {
    hide Wire, WireField, Part, Number, Repeated, AttributesBytes;
    FixedField(1, e.time);
    BytesField(2, e.name);
    TwoFields(Fixed64(1, e.time), Bytes(2, e.name));
    AttributesWire(3, e.attributes[..e.attributeCount]);
    WireConcat([Fixed64(1, e.time), Bytes(2, e.name)], AttributeMessages(3, e.attributes[..e.attributeCount]));
  }

  lemma {:induction false} EventsAt(events: seq<Event>, i: nat)
    requires i < |events|
    requires forall j :: 0 <= j < |events| ==> events[j].attributeCount <= |events[j].attributes|
    ensures EventsBytes(events)[i] == EventBytes(events[i])
  {
    if i > 0 {
      EventsAt(events[1..], i - 1);
    }
  }

  lemma EventsWire(t: TraceRecord)
    requires TraceAccepted(t)
    ensures var messages :=
              seq(t.eventCount, i requires 0 <= i < t.eventCount => Message(11, EventFields(t.events[i])));
            Wire(messages) == Repeated(0x5A, EventsBytes(t.events[..t.eventCount]))
  {
    hide Wire, Repeated, EventsBytes, EventBytes, EventFields;
    var events := t.events[..t.eventCount];
    var messages := seq(t.eventCount, i requires 0 <= i < t.eventCount => Message(11, EventFields(t.events[i])));
    forall i | 0 <= i < t.eventCount
      ensures Wire(messages[i].fields) == EventsBytes(events)[i]
    {
      assert EventAccepted(t.events[i]);
      EventWire(t.events[i]);
      EventsAt(events, i);
    }
    RepeatedWire(11, messages, EventsBytes(events));
  }

  /** The bytes of a span. */
  lemma SpanWire(t: TraceRecord)
    requires TraceAccepted(t)
    ensures Wire(TraceFields(t)) == SpanBytes(t)
  {
    hide Wire, WireField, Part, Number, Repeated, AttributesBytes, EventsBytes;
    var ids, times := [Bytes(1, t.traceId), Bytes(2, t.spanId)], [Fixed64(7, t.start), Fixed64(8, t.end)];
    var attributes := AttributeMessages(9, t.attributes[..t.attributeCount]);
    var events := seq(t.eventCount, i requires 0 <= i < t.eventCount => Message(11, EventFields(t.events[i])));
    BytesField(1, t.traceId);
    BytesField(2, t.spanId);
    TwoFields(ids[0], ids[1]);
    BytesField(5, t.name);
    WireOne(Bytes(5, t.name));
    FixedField(7, t.start);
    FixedField(8, t.end);
    TwoFields(times[0], times[1]);
    AttributesWire(9, t.attributes[..t.attributeCount]);
    EventsWire(t);
    assert TraceFields(t) == ids + [Bytes(5, t.name)] + times + attributes + events;
    WireConcat(ids, [Bytes(5, t.name)]);
    WireConcat(ids + [Bytes(5, t.name)], times);
    WireConcat(ids + [Bytes(5, t.name)] + times, attributes);
    WireConcat(ids + [Bytes(5, t.name)] + times + attributes, events);
  }

  /** The bytes of a gauge metric. */
  lemma MetricWire(t: MetricRecord)
    requires MetricAccepted(t)
    ensures Wire(MetricFields(t)) == MetricBytes(t)
  {
    hide Wire, WireField, Part, Number, Repeated, AttributesBytes;
    var values := [Fixed64(3, t.time), Fixed64(4, t.valueBits)];
    var point := values + AttributeMessages(7, t.attributes[..t.attributeCount]);
    FixedField(3, t.time);
    FixedField(4, t.valueBits);
    TwoFields(values[0], values[1]);
    AttributesWire(7, t.attributes[..t.attributeCount]);
    WireConcat(values, AttributeMessages(7, t.attributes[..t.attributeCount]));
    MessageField(1, point);
    WireOne(Message(1, point));
    MessageField(5, [Message(1, point)]);
    WireOne(Message(5, [Message(1, point)]));
    BytesField(1, t.name);
    BytesField(3, t.unit);
    TwoFields(Bytes(1, t.name), Bytes(3, t.unit));
    assert MetricFields(t) == [Bytes(1, t.name), Bytes(3, t.unit)] + [Message(5, [Message(1, point)])];
    WireConcat([Bytes(1, t.name), Bytes(3, t.unit)], [Message(5, [Message(1, point)])]);
  }

  lemma OptionalWire(number: nat, value: seq<byte>)
    requires number < 16
    ensures Wire(OptionalBytes(number, value)) == OptionalPart(8 * number + 2, value)
  {
    hide WireField, Part;
    BytesField(number, value);
    WireOne(Bytes(number, value));
  }

  lemma SeverityWire(severity: nat)
    ensures WireField(Varint(2, severity)) == [0x10] + VarintBytes(severity)
  {
    TagByte(2, 0);
  }

  /** The bytes of a log record. */
  lemma LogWire(t: LogRecord)
    requires LogAccepted(t)
    ensures Wire(LogFields(t)) == LogBytes(t)
  {
    hide Wire, WireField, Part, Number, Repeated, AttributesBytes, OptionalPart, VarintBytes;
    var time, body := [Fixed64(1, t.time), Varint(2, t.severityNumber)], Message(5, [Bytes(1, t.body)]);
    var texts := [Bytes(3, t.severityText), body];
    var attributes := AttributeMessages(6, t.attributes[..t.attributeCount]);
    var trace, span := OptionalBytes(9, t.traceId), OptionalBytes(10, t.spanId);
    FixedField(1, t.time);
    SeverityWire(t.severityNumber);
    TwoFields(time[0], time[1]);
    BytesField(1, t.body);
    WireOne(Bytes(1, t.body));
    MessageField(5, [Bytes(1, t.body)]);
    BytesField(3, t.severityText);
    TwoFields(texts[0], texts[1]);
    AttributesWire(6, t.attributes[..t.attributeCount]);
    OptionalWire(9, t.traceId);
    OptionalWire(10, t.spanId);
    assert LogFields(t) == time + texts + attributes + trace + span;
    WireConcat(time, texts);
    WireConcat(time + texts, attributes);
    WireConcat(time + texts + attributes, trace);
    WireConcat(time + texts + attributes + trace, span);
  }

  /** The bytes of a whole request around the bytes of its records. */
  lemma RequestWire(m: Metadata, records: seq<seq<Field>>, bytes: seq<seq<byte>>)
    requires m.resourceAttributeCount <= |m.resourceAttributes|
    requires |bytes| == |records| && forall i :: 0 <= i < |records| ==> Wire(records[i]) == bytes[i]
    ensures Wire([Request(m, records)]) == RequestBytes(m, bytes)
  {
    hide Wire, WireField, Part, Repeated, AttributesBytes, AttributeBytes, AttributeFields;
    ResourceWire(m);
    var scope := Message(1, ScopeFields(m));
    var scoped := [scope] + RecordMessages(records);
    BytesField(1, m.scopeName);
    BytesField(2, m.scopeVersion);
    TwoFields(Bytes(1, m.scopeName), Bytes(2, m.scopeVersion));
    MessageField(1, ScopeFields(m));
    WireOne(scope);
    RepeatedWire(2, RecordMessages(records), bytes);
    WireConcat([scope], RecordMessages(records));
    MessageField(1, ResourceFields(m));
    MessageField(2, scoped);
    TwoFields(Message(1, ResourceFields(m)), Message(2, scoped));
    MessageField(1, [Message(1, ResourceFields(m)), Message(2, scoped)]);
    WireOne(Request(m, records));
  }

  lemma ResourceWire(m: Metadata)
    requires m.resourceAttributeCount <= |m.resourceAttributes|
    ensures Wire(ResourceFields(m))
            == Part(0x0A, AttributeBytes(Attribute(SERVICE_NAME, m.serviceName)))
               + Repeated(0x0A, AttributesBytes(m.resourceAttributes[..m.resourceAttributeCount]))
  {
    hide Wire, WireField, Part, Repeated, AttributesBytes, AttributeBytes, AttributeFields;
    var service := Attribute(SERVICE_NAME, m.serviceName);
    AttributeWire(service);
    MessageField(1, AttributeFields(service));
    WireOne(Message(1, AttributeFields(service)));
    AttributesWire(1, m.resourceAttributes[..m.resourceAttributeCount]);
    WireConcat([Message(1, AttributeFields(service))],
               AttributeMessages(1, m.resourceAttributes[..m.resourceAttributeCount]));
  }

  /** The bytes of a whole trace batch. */
  lemma TracesWire(m: Metadata, records: seq<TraceRecord>)
    requires m.resourceAttributeCount <= |m.resourceAttributes| && TracesAccepted(records)
    ensures Wire([Request(m, TraceTrees(records))])
            == RequestBytes(m, seq(|records|, i requires 0 <= i < |records| => SpanBytes(records[i])))
  {
    hide Wire, TraceFields, SpanBytes, RequestBytes, TraceAccepted;
    var bytes := seq(|records|, i requires 0 <= i < |records| => SpanBytes(records[i]));
    forall i | 0 <= i < |records|
      ensures Wire(TraceTrees(records)[i]) == bytes[i]
    {
      SpanWire(records[i]);
    }
    RequestWire(m, TraceTrees(records), bytes);
  }

  /** The bytes of a whole metric batch. */
  lemma MetricsWire(m: Metadata, records: seq<MetricRecord>)
    requires m.resourceAttributeCount <= |m.resourceAttributes| && MetricsAccepted(records)
    ensures Wire([Request(m, MetricTrees(records))])
            == RequestBytes(m, seq(|records|, i requires 0 <= i < |records| => MetricBytes(records[i])))
  {
    hide Wire, MetricFields, MetricBytes, RequestBytes, MetricAccepted;
    var bytes := seq(|records|, i requires 0 <= i < |records| => MetricBytes(records[i]));
    forall i | 0 <= i < |records|
      ensures Wire(MetricTrees(records)[i]) == bytes[i]
    {
      MetricWire(records[i]);
    }
    RequestWire(m, MetricTrees(records), bytes);
  }

  /** The bytes of a whole log batch. */
  lemma LogsWire(m: Metadata, records: seq<LogRecord>)
    requires m.resourceAttributeCount <= |m.resourceAttributes| && LogsAccepted(records)
    ensures Wire([Request(m, LogTrees(records))])
            == RequestBytes(m, seq(|records|, i requires 0 <= i < |records| => LogBytes(records[i])))
  {
    hide Wire, LogFields, LogBytes, RequestBytes, LogAccepted;
    var bytes := seq(|records|, i requires 0 <= i < |records| => LogBytes(records[i]));
    forall i | 0 <= i < |records|
      ensures Wire(LogTrees(records)[i]) == bytes[i]
    {
      LogWire(records[i]);
    }
    RequestWire(m, LogTrees(records), bytes);
  }
}
