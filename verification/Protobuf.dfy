/**
 The protobuf wire format as the OTLP encoder uses it: the bytes of a field tree, the sizing
 pass, the writing pass, and a schema-driven decoder. A nested encoder closure of the source is
 the list of fields it emits, so that one value can be given to the sizer and to the writer.
 */
module Protobuf {
  import opened Arithmetic
  import Sequences
  import opened Words

  datatype Field =
    | Varint(number: nat, value: nat)
    | Fixed64(number: nat, value: nat)
    | Bytes(number: nat, bytes: seq<byte>)
    | Message(number: nat, fields: seq<Field>)

  // ---- The bytes of a field tree ----

  function VarintBytes(value: nat): (r: seq<byte>)
    ensures r != []
  {
    if value < 0x80 then [value] else [0x80 + value % 0x80] + VarintBytes(value / 0x80)
  }

  function LittleEndian(value: nat, width: nat): (r: seq<byte>)
    ensures |r| == width
    decreases width
  {
    if width == 0 then [] else [value % 256] + LittleEndian(value / 256, width - 1)
  }

  function Tag(number: nat, wire: nat): seq<byte> {
    VarintBytes(8 * number + wire)
  }

  function Delimited(number: nat, content: seq<byte>): seq<byte> {
    Tag(number, 2) + VarintBytes(|content|) + content
  }

  function WireField(f: Field): (r: seq<byte>)
    ensures r != []
    decreases f, 1
  {
    match f
    case Varint(number, value) => Tag(number, 0) + VarintBytes(value)
    case Fixed64(number, value) => Tag(number, 1) + LittleEndian(value, 8)
    case Bytes(number, bytes) => Delimited(number, bytes)
    case Message(number, fields) => Delimited(number, Wire(fields))
  }

  function Wire(fields: seq<Field>): seq<byte>
    decreases fields, 0
  {
    if fields == [] then [] else WireField(fields[0]) + Wire(fields[1..])
  }

  // ---- The sizing pass ----

  method VarintSize(initial: nat) returns (result: nat)
    ensures result == |VarintBytes(initial)|
  {
    var value := initial;
    result := 1;
    while value >= 0x80
      invariant result + |VarintBytes(value)| == 1 + |VarintBytes(initial)|
    {
      value := value / 0x80;
      result := result + 1;
    }
  }

  /** The counter is a machine word, so a size that does not fit wraps around. */
  class Sizer {
    var used: nat

    ghost predicate Valid()
      reads this
    {
      used <= U64_MAX
    }

    constructor ()
      ensures Valid() && used == 0
    {
      used := 0;
    }

    method Add(size: nat)
      modifies this
      ensures Valid() && (old(used) + size <= U64_MAX ==> used == old(used) + size)
    {
      used := (used + size) % (U64_MAX + 1);
    }

    /** Adds the size of a tagged field with `size` payload bytes after its length prefix. */
    method AddDelimited(number: nat, size: nat)
      modifies this
      ensures Valid()
      ensures var total := |Tag(number, 2)| + |VarintBytes(size)| + size;
              old(used) + total <= U64_MAX ==> used == old(used) + total
    {
      var tag := VarintSize(8 * number + 2);
      var length := VarintSize(size);
      Add(tag + length + size);
    }

    /** Exact for every field that fits a machine word together with what was there. */
    method Emit(f: Field)
      modifies this
      ensures Valid() && (old(used) + |WireField(f)| <= U64_MAX ==> used == old(used) + |WireField(f)|)
      decreases f, 1
    {
      match f {
        case Varint(number, value) =>
          var tag := VarintSize(8 * number);
          var payload := VarintSize(value);
          Add(tag + payload);
        case Fixed64(number, value) =>
          var tag := VarintSize(8 * number + 1);
          Add(tag + 8);
        case Bytes(number, bytes) =>
          AddDelimited(number, |bytes|);
        case Message(number, fields) =>
          var child := new Sizer();
          child.EmitAll(fields);
          AddDelimited(number, child.used);
      }
    }

    method EmitAll(fields: seq<Field>)
      requires Valid()
      modifies this
      ensures Valid() && (old(used) + |Wire(fields)| <= U64_MAX ==> used == old(used) + |Wire(fields)|)
      decreases fields, 0
    {
      if fields != [] {
        Emit(fields[0]);
        EmitAll(fields[1..]);
      }
    }
  }

  // ---- The writing pass ----

  /** A write of `data`: it succeeds exactly when all of it fits, and then appends exactly it. */
  ghost predicate Wrote(before: seq<byte>, after: seq<byte>, capacity: nat, ok: bool, data: seq<byte>) {
    && before <= after && |after| <= capacity
    && (ok <==> |before| + |data| <= capacity)
    && (ok ==> after == before + data)
  }

  lemma WroteThen(before: seq<byte>, middle: seq<byte>, after: seq<byte>, capacity: nat, ok: bool,
                  first: seq<byte>, second: seq<byte>)
    requires Wrote(before, middle, capacity, true, first)
    requires Wrote(middle, after, capacity, ok, second)
    ensures Wrote(before, after, capacity, ok, first + second)
  {
    assert before + first + second == before + (first + second);
  }

  lemma AllThere(before: seq<byte>, sent: seq<byte>, capacity: nat)
    requires |before + sent| <= capacity
    ensures Wrote(before, before + sent, capacity, true, sent)
  {
  }

  lemma NoRoom(before: seq<byte>, sent: seq<byte>, capacity: nat, more: seq<byte>)
    requires |before + sent| == capacity && more != []
    ensures Wrote(before, before + sent, capacity, false, sent + more)
  {
  }

  lemma VarintStep(value: nat)
    ensures VarintBytes(value) == if value / 0x80 == 0 then [value % 0x80]
                                  else [0x80 + value % 0x80] + VarintBytes(value / 0x80)
  {
  }

  lemma LittleEndianStep(value: nat, width: nat)
    requires width > 0
    ensures LittleEndian(value, width) == [value % 256] + LittleEndian(value / 256, width - 1)
  {
  }

  lemma NoDigits(value: nat)
    ensures LittleEndian(value, 0) == []
  {
  }

  class Writer {
    const output: array<byte>
    var used: nat

    ghost predicate Valid()
      reads this
    {
      used <= output.Length <= U64_MAX
    }

    /** What lies behind the bytes written is as it was. */
    twostate predicate Behind()
      reads this, output
    {
      forall k :: used <= k < output.Length ==> output[k] == old(output[k])
    }

    ghost function Written(): (r: seq<byte>)
      reads this, output
      requires Valid()
      ensures |r| == used
    {
      output[..used]
    }

    constructor (target: array<byte>)
      requires target.Length <= U64_MAX
      ensures output == target && Valid() && Written() == []
    {
      output := target;
      used := 0;
    }

    method Put(b: byte)
      requires Valid() && used < output.Length
      modifies this, output
      ensures Valid() && Behind() && Written() == old(Written()) + [b]
    {
      output[used] := b;
      used := used + 1;
    }

    method PutVarint(initial: nat) returns (ok: bool)
      requires Valid()
      modifies this, output
      ensures Valid() && Behind() && Wrote(old(Written()), Written(), output.Length, ok, VarintBytes(initial))
    {
      hide VarintBytes, Wrote;
      var value := initial;
      ghost var before := Written();
      ghost var sent: seq<byte> := [];
      while true
        invariant Valid() && Behind() && Written() == before + sent
        invariant VarintBytes(initial) == sent + VarintBytes(value)
        decreases value
      {
        if used == output.Length {
          NoRoom(before, sent, output.Length, VarintBytes(value));
          return false;
        }
        var b: byte := value % 0x80;
        VarintStep(value);
        value := value / 0x80;
        if value != 0 {
          b := b + 0x80;
        }
        Put(b);
        Sequences.Regroup(before, sent, [b]);
        if value == 0 {
          AllThere(before, sent + [b], output.Length);
          return true;
        }
        Sequences.Regroup(sent, [b], VarintBytes(value));
        sent := sent + [b];
      }
    }

    method PutBytes(data: seq<byte>)
      requires Valid() && used + |data| <= output.Length
      modifies this, output
      ensures Valid() && Behind() && Written() == old(Written()) + data
    {
      for index := 0 to |data|
        invariant Valid() && Behind() && Written() == old(Written()) + data[..index]
      {
        Put(data[index]);
      }
      assert data[..|data|] == data;
    }

    method PutDelimited(number: nat, data: seq<byte>) returns (ok: bool)
      requires Valid()
      modifies this, output
      ensures Valid() && Behind() && Wrote(old(Written()), Written(), output.Length, ok, Delimited(number, data))
    {
      hide VarintBytes;
      ghost var s0 := Written();
      ok := PutVarint(8 * number + 2);
      if !ok {
        return false;
      }
      ghost var s1 := Written();
      ok := PutVarint(|data|);
      if ok {
        WroteThen(s0, s1, Written(), output.Length, true, Tag(number, 2), VarintBytes(|data|));
      }
      if !ok || |data| > output.Length - used {
        return false;
      }
      PutBytes(data);
      return true;
    }

    method PutFixed64(number: nat, value: nat) returns (ok: bool)
      requires Valid()
      modifies this, output
      ensures Valid() && Behind()
      ensures Wrote(old(Written()), Written(), output.Length, ok, Tag(number, 1) + LittleEndian(value, 8))
    {
      hide LittleEndian;
      ok := PutVarint(8 * number + 1);
      if !ok || output.Length - used < 8 {
        return false;
      }
      PutLittleEndian(value, 8);
      return true;
    }

    method PutLittleEndian(value: nat, width: nat)
      requires Valid() && used + width <= output.Length
      modifies this, output
      ensures Valid() && Behind() && Written() == old(Written()) + LittleEndian(value, width)
    {
      hide LittleEndian;
      ghost var sent: seq<byte> := [];
      var rest := value;
      for index := 0 to width
        invariant Valid() && Behind() && |sent| == index && Written() == old(Written()) + sent
        invariant sent + LittleEndian(rest, width - index) == LittleEndian(value, width)
      {
        LittleEndianStep(rest, width - index);
        Put(rest % 256);
        sent := sent + [rest % 256];
        rest := rest / 256;
      }
      NoDigits(rest);
    }

    method Emit(f: Field) returns (ok: bool)
      requires Valid()
      modifies this, output
      ensures Valid() && Behind() && Wrote(old(Written()), Written(), output.Length, ok, WireField(f))
      decreases f, 1
    {
      match f {
        case Varint(number, value) =>
          ghost var s0 := Written();
          ok := PutVarint(8 * number);
          if ok {
            ghost var s1 := Written();
            ok := PutVarint(value);
            WroteThen(s0, s1, Written(), output.Length, ok, Tag(number, 0), VarintBytes(value));
          }
        case Fixed64(number, value) =>
          ok := PutFixed64(number, value);
        case Bytes(number, bytes) =>
          ok := PutDelimited(number, bytes);
        case Message(number, fields) =>
          ok := PutMessage(number, fields);
      }
    }

    /**
     Sizes the nested fields, writes the length, then writes the nested fields themselves. A size
     that wrapped around is never left in a complete message: the fields behind it do not fit.
     */
    method PutMessage(number: nat, fields: seq<Field>) returns (ok: bool)
      requires Valid()
      modifies this, output
      ensures Valid() && Behind()
      ensures Wrote(old(Written()), Written(), output.Length, ok, Delimited(number, Wire(fields)))
      decreases fields, 1
    {
      hide Wire, VarintBytes;
      var child := new Sizer();
      child.EmitAll(fields);
      ghost var size, content := VarintBytes(child.used), Wire(fields);
      ghost var s0 := Written();
      ok := PutVarint(8 * number + 2);
      if ok {
        ghost var s1 := Written();
        ok := PutVarint(child.used);
        WroteThen(s0, s1, Written(), output.Length, ok, Tag(number, 2), size);
        if ok {
          ghost var s2 := Written();
          ok := EmitAll(fields);
          WroteThen(s0, s2, Written(), output.Length, ok, Tag(number, 2) + size, content);
        }
      }
    }

    method EmitAll(fields: seq<Field>) returns (ok: bool)
      requires Valid()
      modifies this, output
      ensures Valid() && Behind() && Wrote(old(Written()), Written(), output.Length, ok, Wire(fields))
      decreases fields, 0
    {
      if fields == [] {
        return true;
      }
      ghost var s0 := Written();
      ok := Emit(fields[0]);
      if ok {
        ghost var s1 := Written();
        ok := EmitAll(fields[1..]);
        WroteThen(s0, s1, Written(), output.Length, ok, WireField(fields[0]), Wire(fields[1..]));
      }
    }
  }

  // ---- A decoder ----

  /** What a schema says a field number carries. */
  datatype Kind = VarintKind | Fixed64Kind | BytesKind | MessageKind(schema: map<nat, Kind>)

  datatype Read<+T> = Failed | Read(value: T, rest: seq<byte>)

  function ReadVarint(bytes: seq<byte>): (r: Read<nat>)
    ensures r.Read? ==> |r.rest| < |bytes|
    decreases |bytes|
  {
    if bytes == [] then Failed
    else if bytes[0] < 0x80 then Read(bytes[0], bytes[1..])
    else
      var more := ReadVarint(bytes[1..]);
      if more.Failed? then Failed else Read(bytes[0] as int - 0x80 + 0x80 * more.value, more.rest)
  }

  function ReadFixed(bytes: seq<byte>, width: nat): Read<nat>
    decreases width
  {
    if width == 0 then Read(0, bytes)
    else if bytes == [] then Failed
    else
      var more := ReadFixed(bytes[1..], width - 1);
      if more.Failed? then Failed else Read(bytes[0] as int + 256 * more.value, more.rest)
  }

  function ReadDelimited(bytes: seq<byte>): (r: Read<seq<byte>>)
    ensures r.Read? ==> |r.rest| < |bytes| && |r.value| < |bytes|
  {
    var size := ReadVarint(bytes);
    if size.Failed? || size.value > |size.rest| then Failed
    else Read(size.rest[..size.value], size.rest[size.value..])
  }

  function Decode(schema: map<nat, Kind>, bytes: seq<byte>): Option<seq<Field>>
    decreases |bytes|
  {
    if bytes == [] then Some([])
    else
      var head := DecodeField(schema, bytes);
      if head.Failed? then None
      else
        var rest := Decode(schema, head.rest);
        if rest.None? then None else Some([head.value] + rest.value)
  }

  function DecodeField(schema: map<nat, Kind>, bytes: seq<byte>): (r: Read<Field>)
    ensures r.Read? ==> |r.rest| < |bytes|
    decreases |bytes|, 0
  {
    var tag := ReadVarint(bytes);
    if tag.Failed? || tag.value / 8 !in schema then Failed
    else
      var number, wire := tag.value / 8, tag.value % 8;
      match schema[number]
      case VarintKind =>
        var v := ReadVarint(tag.rest);
        if wire != 0 || v.Failed? then Failed else Read(Varint(number, v.value), v.rest)
      case Fixed64Kind =>
        ReadFixedShrinks(tag.rest, 8);
        var v := ReadFixed(tag.rest, 8);
        if wire != 1 || v.Failed? then Failed else Read(Fixed64(number, v.value), v.rest)
      case BytesKind =>
        var v := ReadDelimited(tag.rest);
        if wire != 2 || v.Failed? then Failed else Read(Bytes(number, v.value), v.rest)
      case MessageKind(inner) =>
        var v := ReadDelimited(tag.rest);
        if wire != 2 || v.Failed? then Failed
        else
          var nested := Decode(inner, v.value);
          if nested.None? then Failed else Read(Message(number, nested.value), v.rest)
  }

  lemma {:induction false} ReadFixedShrinks(bytes: seq<byte>, width: nat)
    ensures ReadFixed(bytes, width).Read? ==> |ReadFixed(bytes, width).rest| <= |bytes|
    decreases width
  {
    if width > 0 && bytes != [] {
      ReadFixedShrinks(bytes[1..], width - 1);
    }
  }

  // ---- The decoder undoes the encoder ----

  /** A field tree that a schema describes. */
  ghost predicate Conforms(schema: map<nat, Kind>, fields: seq<Field>)
    decreases fields, 0
  {
    forall i :: 0 <= i < |fields| ==> FieldConforms(schema, fields[i])
  }

  ghost predicate FieldConforms(schema: map<nat, Kind>, f: Field)
    decreases f, 1
  {
    && f.number in schema
    && match f {
         case Varint(_, _) => schema[f.number].VarintKind?
         case Fixed64(_, value) => schema[f.number].Fixed64Kind? && value <= U64_MAX
         case Bytes(_, _) => schema[f.number].BytesKind?
         case Message(_, fields) =>
           schema[f.number].MessageKind? && Conforms(schema[f.number].schema, fields)
       }
  }

  lemma {:induction false} VarintRoundTrip(value: nat, rest: seq<byte>)
    ensures ReadVarint(VarintBytes(value) + rest) == Read(value, rest)
    decreases value
  {
    var bytes := VarintBytes(value) + rest;
    if value < 0x80 {
      assert bytes[1..] == rest;
    } else {
      VarintRoundTrip(value / 0x80, rest);
      assert bytes[1..] == VarintBytes(value / 0x80) + rest;
    }
  }

  lemma {:induction false} FixedRoundTrip(value: nat, width: nat, rest: seq<byte>)
    requires value < Pow256(width)
    ensures ReadFixed(LittleEndian(value, width) + rest, width) == Read(value, rest)
    decreases width
  {
    var bytes := LittleEndian(value, width) + rest;
    if width == 0 {
      assert bytes == rest;
    } else {
      FixedRoundTrip(value / 256, width - 1, rest);
      assert bytes[1..] == LittleEndian(value / 256, width - 1) + rest;
    }
  }

  lemma {:induction false} DelimitedRoundTrip(content: seq<byte>, rest: seq<byte>)
    ensures ReadDelimited(VarintBytes(|content|) + content + rest) == Read(content, rest)
  {
    hide ReadVarint, VarintBytes;
    var tail := content + rest;
    assert VarintBytes(|content|) + content + rest == VarintBytes(|content|) + tail;
    VarintRoundTrip(|content|, tail);
    assert tail[..|content|] == content && tail[|content|..] == rest;
  }

  lemma VarintField(schema: map<nat, Kind>, number: nat, value: nat, rest: seq<byte>)
    requires FieldConforms(schema, Varint(number, value))
    ensures DecodeField(schema, WireField(Varint(number, value)) + rest) == Read(Varint(number, value), rest)
  {
    hide ReadVarint, VarintBytes, ReadDelimited, ReadFixed;
    var payload := VarintBytes(value) + rest;
    assert WireField(Varint(number, value)) + rest == Tag(number, 0) + payload;
    VarintRoundTrip(8 * number, payload);
    VarintRoundTrip(value, rest);
  }

  lemma Fixed64Field(schema: map<nat, Kind>, number: nat, value: nat, rest: seq<byte>)
    requires FieldConforms(schema, Fixed64(number, value))
    ensures DecodeField(schema, WireField(Fixed64(number, value)) + rest) == Read(Fixed64(number, value), rest)
  {
    hide ReadVarint, VarintBytes, ReadFixed, LittleEndian;
    var payload := LittleEndian(value, 8) + rest;
    assert WireField(Fixed64(number, value)) + rest == Tag(number, 1) + payload;
    assert value < Pow256(8);
    VarintRoundTrip(8 * number + 1, payload);
    FixedRoundTrip(value, 8, rest);
  }

  lemma {:induction false} FieldRoundTrip(schema: map<nat, Kind>, f: Field, rest: seq<byte>)
    requires FieldConforms(schema, f)
    ensures DecodeField(schema, WireField(f) + rest) == Read(f, rest)
    decreases f, 1
  {
    hide ReadVarint, VarintBytes, ReadFixed, LittleEndian, ReadDelimited, Delimited;
    match f {
      case Varint(number, value) =>
        VarintField(schema, number, value, rest);
      case Fixed64(number, value) =>
        Fixed64Field(schema, number, value, rest);
      case Bytes(number, bytes) =>
        TaggedContent(number, bytes, rest);
      case Message(number, fields) =>
        TaggedContent(number, Wire(fields), rest);
        WireRoundTrip(schema[number].schema, fields);
    }
  }

  lemma TaggedContent(number: nat, content: seq<byte>, rest: seq<byte>)
    ensures var tagged := ReadVarint(Delimited(number, content) + rest);
            && tagged.Read? && tagged.value == 8 * number + 2
            && ReadDelimited(tagged.rest) == Read(content, rest)
  {
    var tail := VarintBytes(|content|) + content + rest;
    assert Delimited(number, content) + rest == Tag(number, 2) + tail;
    VarintRoundTrip(8 * number + 2, tail);
    DelimitedRoundTrip(content, rest);
  }

  /** Decoding the bytes of a field tree returns that tree, at every nesting level. */
  lemma {:induction false} WireRoundTrip(schema: map<nat, Kind>, fields: seq<Field>)
    requires Conforms(schema, fields)
    ensures Decode(schema, Wire(fields)) == Some(fields)
    decreases fields, 0
  {
    hide WireField, DecodeField, FieldConforms;
    if fields != [] {
      FieldRoundTrip(schema, fields[0], Wire(fields[1..]));
      WireRoundTrip(schema, fields[1..]);
      assert fields == [fields[0]] + fields[1..];
    }
  }

  // ---- How long an encoding can be ----

  lemma {:induction false} WireConcat(a: seq<Field>, b: seq<Field>)
    ensures Wire(a + b) == Wire(a) + Wire(b)
  {
    hide WireField;
    if a == [] {
      assert a + b == b;
    } else {
      WireConcat(a[1..], b);
      assert (a + b)[0] == a[0] && (a + b)[1..] == a[1..] + b;
      Sequences.Regroup(WireField(a[0]), Wire(a[1..]), Wire(b));
    }
  }

  /** Every byte of a varint but the last has its high bit set. */
  lemma {:induction false} VarintShape(value: nat)
    ensures var bytes := VarintBytes(value);
            && bytes[|bytes| - 1] < 0x80 && forall i :: 0 <= i < |bytes| - 1 ==> bytes[i] >= 0x80
  {
    if value >= 0x80 {
      VarintShape(value / 0x80);
    }
  }

  /** The least significant byte of a fixed number comes first. */
  lemma {:induction false} LittleEndianAt(value: nat, width: nat, i: nat)
    requires i < width
    ensures LittleEndian(value, width)[i] == value / Pow256(i) % 256
    decreases width
  {
    if i > 0 {
      LittleEndianAt(value / 256, width - 1, i - 1);
      DivideTwice(value, 256, Pow256(i - 1));
    }
  }

  lemma WireOne(f: Field)
    ensures Wire([f]) == WireField(f)
  {
    assert [f][1..] == [];
  }

  lemma {:induction false} WireBound(fields: seq<Field>, bound: nat)
    requires forall i :: 0 <= i < |fields| ==> |WireField(fields[i])| <= bound
    ensures |Wire(fields)| <= bound * |fields|
  {
    hide WireField;
    if fields != [] {
      assert |WireField(fields[0])| <= bound;
      WireBound(fields[1..], bound);
      OneMore(bound, |fields| - 1);
    }
  }

  /** Numbers of 28 bits take at most four bytes. */
  lemma ShortVarint(value: nat)
    requires value < 0x1000_0000
    ensures |VarintBytes(value)| <= 4 && (value < 0x80 ==> |VarintBytes(value)| == 1)
  {
    if value >= 0x80 {
      var a := value / 0x80;
      assert VarintBytes(value) == [0x80 + value % 0x80] + VarintBytes(a);
      if a >= 0x80 {
        var b := a / 0x80;
        assert VarintBytes(a) == [0x80 + a % 0x80] + VarintBytes(b);
        if b >= 0x80 {
          assert b / 0x80 < 0x80;
          assert VarintBytes(b) == [0x80 + b % 0x80] + VarintBytes(b / 0x80);
        }
      }
    }
  }

  /** A short field with a low number: one byte of tag and at most four of length. */
  lemma ShortDelimited(number: nat, content: seq<byte>)
    requires number < 16 && |content| < 0x1000_0000
    ensures |Delimited(number, content)| <= |content| + 5
  {
    hide VarintBytes;
    ShortVarint(8 * number + 2);
    ShortVarint(|content|);
  }

  lemma ShortFixed64(number: nat, value: nat)
    requires number < 16
    ensures |WireField(Fixed64(number, value))| == 9
  {
    hide VarintBytes;
    ShortVarint(8 * number + 1);
  }
}
