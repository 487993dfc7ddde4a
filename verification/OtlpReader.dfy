/**
 A consumer of OTLP requests: it decodes the bytes and picks fields by the numbers the OTLP schema
 assigns them. Everything the caller put into a batch comes back, in order.
 */
module OtlpReader {
  import opened Words
  import opened Protobuf
  import opened Otlp

  // ---- Picking fields by number ----

  function BytesAt(fields: seq<Field>, number: nat): seq<byte> {
    if fields == [] then []
    else if fields[0].Bytes? && fields[0].number == number then fields[0].bytes
    else BytesAt(fields[1..], number)
  }

  function NumberAt(fields: seq<Field>, number: nat): nat {
    if fields == [] then 0
    else if (fields[0].Fixed64? || fields[0].Varint?) && fields[0].number == number then fields[0].value
    else NumberAt(fields[1..], number)
  }

  /** The contents of every nested message with this number, in order. */
  function MessagesAt(fields: seq<Field>, number: nat): seq<seq<Field>> {
    if fields == [] then []
    else
      var rest := MessagesAt(fields[1..], number);
      if fields[0].Message? && fields[0].number == number then [fields[0].fields] + rest else rest
  }

  function MessageAt(fields: seq<Field>, number: nat): seq<Field> {
    var all := MessagesAt(fields, number);
    if all == [] then [] else all[0]
  }

  // ---- The views a consumer builds ----

  datatype EventView = EventView(time: nat, name: seq<byte>, attributes: seq<Attribute>)

  datatype SpanView = SpanView(
    traceId: seq<byte>, spanId: seq<byte>, name: seq<byte>, start: nat, end: nat,
    attributes: seq<Attribute>, events: seq<EventView>)

  datatype MetricView = MetricView(
    name: seq<byte>, unit: seq<byte>, time: nat, valueBits: nat, attributes: seq<Attribute>)

  /** Identifiers are absent, read as empty, when the record carries none. */
  datatype LogView = LogView(
    time: nat, severityNumber: nat, severityText: seq<byte>, body: seq<byte>,
    traceId: seq<byte>, spanId: seq<byte>, attributes: seq<Attribute>)

  datatype Batch<T> = Batch(
    resource: seq<Attribute>, scopeName: seq<byte>, scopeVersion: seq<byte>, records: seq<T>)

  function ReadAttribute(fields: seq<Field>): Attribute {
    Attribute(BytesAt(fields, 1), BytesAt(MessageAt(fields, 2), 1))
  }

  function ReadAttributes(all: seq<seq<Field>>): seq<Attribute> {
    seq(|all|, i requires 0 <= i < |all| => ReadAttribute(all[i]))
  }

  function ReadEvent(fields: seq<Field>): EventView {
    EventView(NumberAt(fields, 1), BytesAt(fields, 2), ReadAttributes(MessagesAt(fields, 3)))
  }

  function ReadSpan(fields: seq<Field>): SpanView {
    var events := MessagesAt(fields, 11);
    SpanView(BytesAt(fields, 1), BytesAt(fields, 2), BytesAt(fields, 5), NumberAt(fields, 7), NumberAt(fields, 8),
             ReadAttributes(MessagesAt(fields, 9)),
             seq(|events|, i requires 0 <= i < |events| => ReadEvent(events[i])))
  }

  function ReadMetric(fields: seq<Field>): MetricView {
    var point := MessageAt(MessageAt(fields, 5), 1);
    MetricView(BytesAt(fields, 1), BytesAt(fields, 3), NumberAt(point, 3), NumberAt(point, 4),
               ReadAttributes(MessagesAt(point, 7)))
  }

  function ReadLog(fields: seq<Field>): LogView {
    LogView(NumberAt(fields, 1), NumberAt(fields, 2), BytesAt(fields, 3), BytesAt(MessageAt(fields, 5), 1),
            BytesAt(fields, 9), BytesAt(fields, 10), ReadAttributes(MessagesAt(fields, 6)))
  }

  function ReadBatch<T>(request: seq<Field>, read: seq<Field> -> T): Batch<T> {
    var batch := MessageAt(request, 1);
    var scoped := MessageAt(batch, 2);
    var scope := MessageAt(scoped, 1);
    var records := MessagesAt(scoped, 2);
    Batch(ReadAttributes(MessagesAt(MessageAt(batch, 1), 1)), BytesAt(scope, 1), BytesAt(scope, 2),
          seq(|records|, i requires 0 <= i < |records| => read(records[i])))
  }

  // ---- What the caller put in ----

  function EventSent(e: Event): EventView
    requires e.attributeCount <= |e.attributes|
  {
    EventView(e.time, e.name, e.attributes[..e.attributeCount])
  }

  function SpanSent(t: TraceRecord): SpanView
    requires TraceAccepted(t)
  {
    SpanView(t.traceId, t.spanId, t.name, t.start, t.end, t.attributes[..t.attributeCount],
             seq(t.eventCount, i requires 0 <= i < t.eventCount => EventSent(t.events[i])))
  }

  function MetricSent(t: MetricRecord): MetricView
    requires MetricAccepted(t)
  {
    MetricView(t.name, t.unit, t.time, t.valueBits, t.attributes[..t.attributeCount])
  }

  function LogSent(t: LogRecord): LogView
    requires LogAccepted(t)
  {
    LogView(t.time, t.severityNumber, t.severityText, t.body,
            if AnyNonzero(t.traceId) then t.traceId else [], if AnyNonzero(t.spanId) then t.spanId else [],
            t.attributes[..t.attributeCount])
  }

  function BatchSent<T>(m: Metadata, records: seq<T>): Batch<T>
    requires m.resourceAttributeCount <= |m.resourceAttributes|
  {
    Batch([Attribute(SERVICE_NAME, m.serviceName)] + m.resourceAttributes[..m.resourceAttributeCount],
          m.scopeName, m.scopeVersion, records)
  }

  // ---- Reading back ----

  /** What the field at the front of a list contributes to every lookup. */
  lemma Front(f: Field, rest: seq<Field>)
    ensures forall n :: BytesAt([f] + rest, n) == if f.Bytes? && f.number == n then f.bytes else BytesAt(rest, n)
    ensures forall n :: NumberAt([f] + rest, n)
                     == if (f.Fixed64? || f.Varint?) && f.number == n then f.value else NumberAt(rest, n)
    ensures forall n :: MessagesAt([f] + rest, n)
                     == if f.Message? && f.number == n then [f.fields] + MessagesAt(rest, n) else MessagesAt(rest, n)
  {
    assert ([f] + rest)[1..] == rest;
  }

  lemma Single(f: Field)
    ensures [f] + [] == [f]
    ensures forall n :: BytesAt([f], n) == if f.Bytes? && f.number == n then f.bytes else []
    ensures forall n :: MessagesAt([f], n) == if f.Message? && f.number == n then [f.fields] else []
  {
  }

  lemma {:induction false} MessagesConcat(a: seq<Field>, b: seq<Field>, number: nat)
    ensures MessagesAt(a + b, number) == MessagesAt(a, number) + MessagesAt(b, number)
  {
    if a == [] {
      assert a + b == b;
    } else {
      assert (a + b)[1..] == a[1..] + b;
      MessagesConcat(a[1..], b, number);
    }
  }

  ghost predicate AllMessages(fields: seq<Field>, number: nat) {
    forall i :: 0 <= i < |fields| ==> fields[i].Message? && fields[i].number == number
  }

  lemma {:induction false} MessagesOfOneKind(fields: seq<Field>, number: nat, other: nat)
    requires AllMessages(fields, number)
    ensures MessagesAt(fields, number) == seq(|fields|, i requires 0 <= i < |fields| => fields[i].fields)
    ensures other != number ==> MessagesAt(fields, other) == []
  {
    if fields != [] {
      MessagesOfOneKind(fields[1..], number, other);
    }
  }

  lemma {:induction false} SkipMessages(fields: seq<Field>, number: nat, rest: seq<Field>, wanted: nat)
    requires AllMessages(fields, number)
    ensures BytesAt(fields + rest, wanted) == BytesAt(rest, wanted)
  {
    if fields == [] {
      assert fields + rest == rest;
    } else {
      assert (fields + rest)[1..] == fields[1..] + rest;
      SkipMessages(fields[1..], number, rest, wanted);
    }
  }

  lemma AttributesReadBack(number: nat, attributes: seq<Attribute>)
    ensures ReadAttributes(MessagesAt(AttributeMessages(number, attributes), number)) == attributes
  {
    MessagesOfOneKind(AttributeMessages(number, attributes), number, number);
    forall a: Attribute
      ensures ReadAttribute(AttributeFields(a)) == a
    {
      AttributeReadsBack(a);
    }
  }

  lemma AttributeReadsBack(a: Attribute)
    ensures ReadAttribute(AttributeFields(a)) == a
  {
    hide BytesAt, MessagesAt;
    var value := Message(2, [Bytes(1, a.value)]);
    assert AttributeFields(a) == [Bytes(1, a.key)] + [value];
    Front(Bytes(1, a.key), [value]);
    Single(value);
    Single(Bytes(1, a.value));
  }

  lemma EventReadsBack(e: Event)
    requires e.attributeCount <= |e.attributes|
    ensures ReadEvent(EventFields(e)) == EventSent(e)
  {
    hide BytesAt, NumberAt, MessagesAt;
    var attributes := AttributeMessages(3, e.attributes[..e.attributeCount]);
    var named := [Bytes(2, e.name)] + attributes;
    assert EventFields(e) == [Fixed64(1, e.time)] + named;
    Front(Fixed64(1, e.time), named);
    Front(Bytes(2, e.name), attributes);
    AttributesReadBack(3, e.attributes[..e.attributeCount]);
  }

  /** The scalar fields at the front of a span, and the messages behind them. */
  lemma SpanScalars(t: TraceRecord, rest: seq<Field>)
    ensures var fields := [Bytes(1, t.traceId), Bytes(2, t.spanId), Bytes(5, t.name), Fixed64(7, t.start),
                           Fixed64(8, t.end)] + rest;
            && BytesAt(fields, 1) == t.traceId && BytesAt(fields, 2) == t.spanId && BytesAt(fields, 5) == t.name
            && NumberAt(fields, 7) == t.start && NumberAt(fields, 8) == t.end
            && forall n :: MessagesAt(fields, n) == MessagesAt(rest, n)
  {
    hide BytesAt, NumberAt, MessagesAt;
    var f4 := [Fixed64(8, t.end)] + rest;
    var f3 := [Fixed64(7, t.start)] + f4;
    var f2 := [Bytes(5, t.name)] + f3;
    var f1 := [Bytes(2, t.spanId)] + f2;
    var f0 := [Bytes(1, t.traceId)] + f1;
    Front(Bytes(1, t.traceId), f1);
    Front(Bytes(2, t.spanId), f2);
    Front(Bytes(5, t.name), f3);
    Front(Fixed64(7, t.start), f4);
    Front(Fixed64(8, t.end), rest);
    assert f0 == [Bytes(1, t.traceId), Bytes(2, t.spanId), Bytes(5, t.name), Fixed64(7, t.start),
                  Fixed64(8, t.end)] + rest;
  }

  lemma SpanMessages(t: TraceRecord)
    requires TraceAccepted(t)
    ensures var attributes := AttributeMessages(9, t.attributes[..t.attributeCount]);
            var events := seq(t.eventCount, i requires 0 <= i < t.eventCount => Message(11, EventFields(t.events[i])));
            && ReadAttributes(MessagesAt(attributes + events, 9)) == t.attributes[..t.attributeCount]
            && MessagesAt(attributes + events, 11)
               == seq(t.eventCount, i requires 0 <= i < t.eventCount => EventFields(t.events[i]))
  {
    hide MessagesAt;
    var attributes := AttributeMessages(9, t.attributes[..t.attributeCount]);
    var events := seq(t.eventCount, i requires 0 <= i < t.eventCount => Message(11, EventFields(t.events[i])));
    MessagesConcat(attributes, events, 9);
    MessagesConcat(attributes, events, 11);
    MessagesOfOneKind(attributes, 9, 11);
    MessagesOfOneKind(events, 11, 9);
    AttributesReadBack(9, t.attributes[..t.attributeCount]);
  }

  lemma SpanReadsBack(t: TraceRecord)
    requires TraceAccepted(t)
    ensures ReadSpan(TraceFields(t)) == SpanSent(t)
  {
    hide BytesAt, NumberAt, MessagesAt, ReadEvent, EventSent, EventFields;
    var attributes := AttributeMessages(9, t.attributes[..t.attributeCount]);
    var events := seq(t.eventCount, i requires 0 <= i < t.eventCount => Message(11, EventFields(t.events[i])));
    assert TraceFields(t) == [Bytes(1, t.traceId), Bytes(2, t.spanId), Bytes(5, t.name), Fixed64(7, t.start),
                              Fixed64(8, t.end)] + (attributes + events);
    SpanScalars(t, attributes + events);
    SpanMessages(t);
    forall i | 0 <= i < t.eventCount
      ensures ReadEvent(EventFields(t.events[i])) == EventSent(t.events[i])
    {
      assert EventAccepted(t.events[i]);
      EventReadsBack(t.events[i]);
    }
  }

  lemma MetricReadsBack(t: MetricRecord)
    requires MetricAccepted(t)
    ensures ReadMetric(MetricFields(t)) == MetricSent(t)
  {
    hide BytesAt, NumberAt, MessagesAt;
    var attributes := AttributeMessages(7, t.attributes[..t.attributeCount]);
    var p1 := [Fixed64(4, t.valueBits)] + attributes;
    var point := [Fixed64(3, t.time)] + p1;
    assert point == [Fixed64(3, t.time), Fixed64(4, t.valueBits)] + attributes;
    Front(Fixed64(3, t.time), p1);
    Front(Fixed64(4, t.valueBits), attributes);
    AttributesReadBack(7, t.attributes[..t.attributeCount]);
    var gauge := Message(5, [Message(1, point)]);
    assert MetricFields(t) == [Bytes(1, t.name)] + ([Bytes(3, t.unit)] + [gauge]);
    Front(Bytes(1, t.name), [Bytes(3, t.unit)] + [gauge]);
    Front(Bytes(3, t.unit), [gauge]);
    Single(gauge);
    Single(Message(1, point));
  }

  lemma LogReadsBack(t: LogRecord)
    requires LogAccepted(t)
    ensures ReadLog(LogFields(t)) == LogSent(t)
  {
    hide BytesAt, NumberAt, MessagesAt, AnyNonzero, OptionalBytes, AttributeMessages, ReadAttributes;
    var attributes := AttributeMessages(6, t.attributes[..t.attributeCount]);
    var ids := OptionalBytes(9, t.traceId) + OptionalBytes(10, t.spanId);
    var body := Message(5, [Bytes(1, t.body)]);
    var f4 := attributes + ids;
    var f3 := [body] + f4;
    var f2 := [Bytes(3, t.severityText)] + f3;
    var f1 := [Varint(2, t.severityNumber)] + f2;
    assert LogFields(t) == [Fixed64(1, t.time)] + f1;
    Front(Fixed64(1, t.time), f1);
    Front(Varint(2, t.severityNumber), f2);
    Front(Bytes(3, t.severityText), f3);
    Front(body, f4);
    Single(Bytes(1, t.body));
    LogTail(t);
  }

  lemma LogTail(t: LogRecord)
    requires LogAccepted(t)
    ensures var rest := AttributeMessages(6, t.attributes[..t.attributeCount])
                        + (OptionalBytes(9, t.traceId) + OptionalBytes(10, t.spanId));
            && BytesAt(rest, 9) == (if AnyNonzero(t.traceId) then t.traceId else [])
            && BytesAt(rest, 10) == (if AnyNonzero(t.spanId) then t.spanId else [])
            && MessagesAt(rest, 5) == []
            && ReadAttributes(MessagesAt(rest, 6)) == t.attributes[..t.attributeCount]
  {
    LogIds(t);
    hide BytesAt, MessagesAt, OptionalBytes, AnyNonzero;
    var attributes := AttributeMessages(6, t.attributes[..t.attributeCount]);
    var ids := OptionalBytes(9, t.traceId) + OptionalBytes(10, t.spanId);
    MessagesConcat(attributes, ids, 5);
    MessagesConcat(attributes, ids, 6);
    MessagesOfOneKind(attributes, 6, 5);
    AttributesReadBack(6, t.attributes[..t.attributeCount]);
    SkipMessages(attributes, 6, ids, 9);
    SkipMessages(attributes, 6, ids, 10);
  }

  lemma LogIds(t: LogRecord)
    requires LogAccepted(t)
    ensures var ids := OptionalBytes(9, t.traceId) + OptionalBytes(10, t.spanId);
            && BytesAt(ids, 9) == (if AnyNonzero(t.traceId) then t.traceId else [])
            && BytesAt(ids, 10) == (if AnyNonzero(t.spanId) then t.spanId else [])
            && MessagesAt(ids, 5) == [] && MessagesAt(ids, 6) == []
  {
    var ids := OptionalBytes(9, t.traceId) + OptionalBytes(10, t.spanId);
    if AnyNonzero(t.traceId) {
      Front(Bytes(9, t.traceId), OptionalBytes(10, t.spanId));
      Single(Bytes(10, t.spanId));
    } else {
      assert ids == [];
    }
  }

  lemma RequestReadsBack<T>(m: Metadata, trees: seq<seq<Field>>, read: seq<Field> -> T, sent: seq<T>)
    requires m.resourceAttributeCount <= |m.resourceAttributes|
    requires |sent| == |trees| && forall i :: 0 <= i < |trees| ==> read(trees[i]) == sent[i]
    ensures ReadBatch([Request(m, trees)], read) == BatchSent(m, sent)
  {
    hide BytesAt, MessagesAt;
    var resource := ResourceFields(m);
    var visible := [Attribute(SERVICE_NAME, m.serviceName)] + m.resourceAttributes[..m.resourceAttributeCount];
    assert resource == AttributeMessages(1, visible);
    AttributesReadBack(1, visible);
    var scope := Message(1, ScopeFields(m));
    var records := RecordMessages(trees);
    MessagesOfOneKind(records, 2, 1);
    Front(scope, records);
    var scoped := [scope] + records;
    var batch := [Message(1, resource)] + [Message(2, scoped)];
    Front(Message(1, resource), [Message(2, scoped)]);
    Single(Message(2, scoped));
    assert Request(m, trees) == Message(1, batch);
    Single(Message(1, batch));
    assert ScopeFields(m) == [Bytes(1, m.scopeName)] + [Bytes(2, m.scopeVersion)];
    Front(Bytes(1, m.scopeName), [Bytes(2, m.scopeVersion)]);
    Single(Bytes(2, m.scopeVersion));
  }

  /** A consumer of an encoded trace batch reads back everything the caller put in. */
  lemma TracesReadBack(m: Metadata, records: seq<TraceRecord>)
    requires m.resourceAttributeCount <= |m.resourceAttributes|
    requires forall i :: 0 <= i < |records| ==> TraceTyped(records[i]) && TraceAccepted(records[i])
    ensures var tree := Decode(RequestSchema(SPAN), Wire([Request(m, TraceTrees(records))]));
            && tree.Some?
            && ReadBatch(tree.value, ReadSpan)
               == BatchSent(m, seq(|records|, i requires 0 <= i < |records| => SpanSent(records[i])))
  {
    TracesDecode(m, records);
    var sent := seq(|records|, i requires 0 <= i < |records| => SpanSent(records[i]));
    forall i | 0 <= i < |records|
      ensures ReadSpan(TraceTrees(records)[i]) == sent[i]
    {
      SpanReadsBack(records[i]);
    }
    RequestReadsBack(m, TraceTrees(records), ReadSpan, sent);
  }

  lemma MetricsReadBack(m: Metadata, records: seq<MetricRecord>)
    requires m.resourceAttributeCount <= |m.resourceAttributes|
    requires forall i :: 0 <= i < |records| ==> MetricTyped(records[i]) && MetricAccepted(records[i])
    ensures var tree := Decode(RequestSchema(METRIC), Wire([Request(m, MetricTrees(records))]));
            && tree.Some?
            && ReadBatch(tree.value, ReadMetric)
               == BatchSent(m, seq(|records|, i requires 0 <= i < |records| => MetricSent(records[i])))
  {
    MetricsDecode(m, records);
    var sent := seq(|records|, i requires 0 <= i < |records| => MetricSent(records[i]));
    forall i | 0 <= i < |records|
      ensures ReadMetric(MetricTrees(records)[i]) == sent[i]
    {
      MetricReadsBack(records[i]);
    }
    RequestReadsBack(m, MetricTrees(records), ReadMetric, sent);
  }

  lemma LogsReadBack(m: Metadata, records: seq<LogRecord>)
    requires m.resourceAttributeCount <= |m.resourceAttributes|
    requires forall i :: 0 <= i < |records| ==> LogTyped(records[i]) && LogAccepted(records[i])
    ensures var tree := Decode(RequestSchema(LOG), Wire([Request(m, LogTrees(records))]));
            && tree.Some?
            && ReadBatch(tree.value, ReadLog)
               == BatchSent(m, seq(|records|, i requires 0 <= i < |records| => LogSent(records[i])))
  {
    LogsDecode(m, records);
    var sent := seq(|records|, i requires 0 <= i < |records| => LogSent(records[i]));
    forall i | 0 <= i < |records|
      ensures ReadLog(LogTrees(records)[i]) == sent[i]
    {
      LogReadsBack(records[i]);
    }
    RequestReadsBack(m, LogTrees(records), ReadLog, sent);
  }
}
