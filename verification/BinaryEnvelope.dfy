/** The `LGHU` binary envelope: a 16-byte header, a checksum over header and payload, a payload. */
module BinaryEnvelope {
  import opened Arithmetic
  import opened BitStrings
  import opened Crc32c
  import opened Words
  import BE = BigEndian

  const HEADER_SIZE: nat := 16
  const VERSION: nat := 1
  const MAGIC: seq<byte> := [0x4C, 0x47, 0x48, 0x55]

  type u16 = x: int | 0 <= x < 0x1_0000

  datatype Envelope = Envelope(kind: u16, payload: seq<byte>)

  predicate Encodable(e: Envelope) {
    e.kind != 0 && |e.payload| <= U32_MAX
  }

  /** The twelve header bytes the checksum covers. */
  function Prefix(e: Envelope): (r: seq<byte>)
    ensures |r| == 12
  {
    MAGIC + BE.Encoded(VERSION, 2) + BE.Encoded(e.kind, 2) + BE.Encoded(|e.payload|, 4)
  }

  function ChecksumBytes(covered: seq<byte>): (r: seq<byte>)
    ensures |r| == 4
  {
    BE.Encoded(Value(Castagnoli(covered)), 4)
  }

  function Encoded(e: Envelope): (r: seq<byte>)
    ensures |r| == HEADER_SIZE + |e.payload|
  {
    Prefix(e) + ChecksumBytes(Prefix(e) + e.payload) + e.payload
  }

  /** The bytes of an encoding that the checksum covers. */
  function Covered(input: seq<byte>): seq<byte>
    requires |input| >= HEADER_SIZE
  {
    input[..12] + input[16..]
  }

  method EncodedSize(payloadSize: nat) returns (r: Result<nat>)
    ensures r == if payloadSize > U32_MAX then Err(Overflow) else Ok(HEADER_SIZE + payloadSize)
  {
    if payloadSize > U32_MAX {
      return Err(Overflow);
    }
    r := Ok(HEADER_SIZE + payloadSize);
  }

  method Header(e: Envelope) returns (header: seq<byte>)
    ensures header == Prefix(e) + ChecksumBytes(Prefix(e) + e.payload)
  {
    var version := BE.EncodeLoop(VERSION, 2);
    var kind := BE.EncodeLoop(e.kind, 2);
    var length := BE.EncodeLoop(|e.payload|, 4);
    var prefix := MAGIC + version + kind + length;
    var crc := CastagnoliPair(prefix, e.payload);
    var checksum := BE.EncodeLoop(Value(crc), 4);
    header := prefix + checksum;
  }

  function Overwritten(bytes: seq<byte>, offset: nat, data: seq<byte>): seq<byte>
    requires offset + |data| <= |bytes|
  {
    bytes[..offset] + data + bytes[offset + |data|..]
  }

  lemma TwoCopies(before: seq<byte>, header: seq<byte>, payload: seq<byte>)
    requires |header| + |payload| <= |before|
    ensures Overwritten(Overwritten(before, 0, header), |header|, payload)
            == header + payload + before[|header| + |payload|..]
  {
    var middle := Overwritten(before, 0, header);
    assert middle[..|header|] == header;
    assert middle[|header| + |payload|..] == before[|header| + |payload|..];
  }

  method CopyInto(output: array<byte>, offset: nat, data: seq<byte>)
    requires offset + |data| <= output.Length
    modifies output
    ensures output[..] == Overwritten(old(output[..]), offset, data)
  {
    for index := 0 to |data|
      invariant forall k :: 0 <= k < output.Length ==>
        output[k] == if offset <= k < offset + index then data[k - offset] else old(output[k])
    {
      output[offset + index] := data[index];
    }
  }

  method Encode(e: Envelope, output: array<byte>) returns (r: Result<nat>)
    modifies output
    ensures r == if e.kind == 0 then Err(InvalidInput)
                 else if |e.payload| > U32_MAX then Err(Overflow)
                 else if output.Length < |Encoded(e)| then Err(InvalidRange)
                 else Ok(|Encoded(e)|)
    ensures r.Ok? ==> output[..] == Encoded(e) + old(output[..])[|Encoded(e)|..]
    ensures r.Err? ==> output[..] == old(output[..])
  {
    hide Prefix, ChecksumBytes, Overwritten;
    if e.kind == 0 {
      return Err(InvalidInput);
    }
    var size := EncodedSize(|e.payload|);
    if size.Err? {
      return size;
    }
    if output.Length < size.value {
      return Err(InvalidRange);
    }
    var header := Header(e);
    ghost var before := output[..];
    CopyInto(output, 0, header);
    CopyInto(output, HEADER_SIZE, e.payload);
    TwoCopies(before, header, e.payload);
    r := size;
  }

  /** What decoding returns, check by check. */
  function Decoded(input: seq<byte>, maximum: nat): Result<Envelope> {
    if |input| < HEADER_SIZE then Err(CorruptData)
    else if input[..4] != MAGIC then Err(CorruptData)
    else if BE.Decoded(input[4..6]) != VERSION then Err(UnsupportedVersion)
    else if BE.Decoded(input[6..8]) == 0 then Err(InvalidInput)
    else
      var size := BE.Decoded(input[8..12]);
      if size > maximum then Err(InvalidRange)
      else if |input| != HEADER_SIZE + size then Err(CorruptData)
      else if Value(Castagnoli(Covered(input))) != BE.Decoded(input[12..16]) then Err(Checksum)
      else
        BE.EncodeDecode(input[6..8]);
        assert Pow256(2) == 0x1_0000;
        Ok(Envelope(BE.Decoded(input[6..8]), input[16..]))
  }

  method Decode(input: seq<byte>, maximum: nat) returns (r: Result<Envelope>)
    ensures r == Decoded(input, maximum)
  {
    hide BE.Decoded, Castagnoli, Value;
    if |input| < HEADER_SIZE {
      return Err(CorruptData);
    }
    var header := input[..HEADER_SIZE];
    if header[0] != 0x4C || header[1] != 0x47 || header[2] != 0x48 || header[3] != 0x55 {
      assert input[..4] != MAGIC;
      return Err(CorruptData);
    }
    assert input[..4] == MAGIC;
    assert header[4..6] == input[4..6] && header[6..8] == input[6..8];
    assert header[8..12] == input[8..12] && header[12..16] == input[12..16];
    var version := BE.DecodeLoop(header[4..6], 2);
    var kind := BE.DecodeLoop(header[6..8], 2);
    var length := BE.DecodeLoop(header[8..12], 4);
    var checksum := BE.DecodeLoop(header[12..16], 4);
    if version.value != VERSION {
      return Err(UnsupportedVersion);
    }
    if kind.value == 0 {
      return Err(InvalidInput);
    }
    if length.value > maximum {
      return Err(InvalidRange);
    }
    BE.EncodeDecode(input[8..12]);
    assert Pow256(4) == 0x1_0000_0000;
    var expected := EncodedSize(length.value);
    if |input| < expected.value {
      return Err(CorruptData);
    }
    if |input| > expected.value {
      return Err(CorruptData);
    }
    var payload := input[HEADER_SIZE..HEADER_SIZE + length.value];
    assert payload == input[16..];
    var crc := CastagnoliPair(input[..12], payload);
    if Value(crc) != checksum.value {
      return Err(Checksum);
    }
    BE.EncodeDecode(input[6..8]);
    assert Pow256(2) == 0x1_0000;
    r := Ok(Envelope(kind.value, payload));
  }

  // ---- The format is canonical ----

  lemma ChecksumFits(covered: seq<byte>)
    ensures Value(Castagnoli(covered)) < Pow256(4)
    ensures BE.Decoded(ChecksumBytes(covered)) == Value(Castagnoli(covered))
  {
    hide Castagnoli, Value;
    ValueBound(Castagnoli(covered));
    BytePower(4);
    BE.DecodeEncode(Value(Castagnoli(covered)), 4);
  }

  lemma FieldsOfPrefix(e: Envelope)
    ensures var s := Prefix(e);
            && s[..4] == MAGIC && s[4..6] == BE.Encoded(VERSION, 2) && s[6..8] == BE.Encoded(e.kind, 2)
            && s[8..] == BE.Encoded(|e.payload|, 4)
  {
    hide BE.Encoded;
  }

  lemma SectionsOfEncoding(e: Envelope)
    ensures var s := Encoded(e);
            && s[..12] == Prefix(e) && s[12..16] == ChecksumBytes(Prefix(e) + e.payload)
            && s[16..] == e.payload && Covered(s) == Prefix(e) + e.payload
  {
    hide Prefix, ChecksumBytes;
  }

  lemma FieldsOfEncoding(e: Envelope)
    ensures var s := Encoded(e);
            && s[..4] == MAGIC && s[4..6] == BE.Encoded(VERSION, 2) && s[6..8] == BE.Encoded(e.kind, 2)
            && s[8..12] == BE.Encoded(|e.payload|, 4)
  {
    FieldsOfPrefix(e);
    SectionsOfEncoding(e);
    hide Prefix, Encoded, BE.Encoded;
    var s := Encoded(e);
    assert s[..4] == s[..12][..4] && s[4..6] == s[..12][4..6];
    assert s[6..8] == s[..12][6..8] && s[8..12] == s[..12][8..];
  }

  /** Decoding undoes encoding for every nonzero kind and every payload within the caller's maximum. */
  lemma DecodeUndoesEncode(e: Envelope, maximum: nat)
    requires Encodable(e) && |e.payload| <= maximum
    ensures Decoded(Encoded(e), maximum) == Ok(e)
  {
    hide Encoded, Castagnoli, Prefix, ChecksumBytes, Value;
    FieldsOfEncoding(e);
    SectionsOfEncoding(e);
    ChecksumFits(Prefix(e) + e.payload);
    assert Pow256(2) == 0x1_0000 && Pow256(4) == 0x1_0000_0000;
    BE.DecodeEncode(VERSION, 2);
    BE.DecodeEncode(e.kind, 2);
    BE.DecodeEncode(|e.payload|, 4);
  }

  /** Whatever decoding accepts is the encoding of what it returns. */
  lemma EncodeUndoesDecode(input: seq<byte>, maximum: nat)
    requires Decoded(input, maximum).Ok?
    ensures var e := Decoded(input, maximum).value;
            Encodable(e) && |e.payload| <= maximum && Encoded(e) == input
  {
    hide Castagnoli, Value;
    var e := Decoded(input, maximum).value;
    PrefixFromFields(input, e);
    BE.EncodeDecode(input[8..12]);
    BE.EncodeDecode(input[12..16]);
    assert Pow256(4) == 0x1_0000_0000;
    hide Prefix;
    assert input == input[..12] + input[12..16] + input[16..];
  }

  lemma PrefixFromFields(input: seq<byte>, e: Envelope)
    requires |input| >= HEADER_SIZE && input[..4] == MAGIC
    requires BE.Decoded(input[4..6]) == VERSION && BE.Decoded(input[6..8]) == e.kind
    requires BE.Decoded(input[8..12]) == |e.payload|
    ensures input[..12] == Prefix(e)
  {
    hide BE.Encoded, BE.Decoded;
    BE.EncodeDecode(input[4..6]);
    BE.EncodeDecode(input[6..8]);
    BE.EncodeDecode(input[8..12]);
    FourParts(input, 4, 6, 8, 12);
  }

  lemma FourParts(s: seq<byte>, a: nat, b: nat, c: nat, d: nat)
    requires a <= b <= c <= d <= |s|
    ensures s[..d] == s[..a] + s[a..b] + s[b..c] + s[c..d]
  {
    assert s[..b] == s[..a] + s[a..b];
    assert s[..c] == s[..b] + s[b..c];
    assert s[..d] == s[..c] + s[c..d];
  }

  /** The exact domain and value of decoding. */
  lemma DecodesExactly(input: seq<byte>, maximum: nat, e: Envelope)
    ensures Decoded(input, maximum) == Ok(e)
            <==> Encodable(e) && |e.payload| <= maximum && input == Encoded(e)
  {
    if Decoded(input, maximum) == Ok(e) {
      EncodeUndoesDecode(input, maximum);
    }
    if Encodable(e) && |e.payload| <= maximum && input == Encoded(e) {
      DecodeUndoesEncode(e, maximum);
    }
  }

  // ---- Damage the decoder rejects ----

  lemma AcceptedChecksum(input: seq<byte>, maximum: nat)
    requires Decoded(input, maximum).Ok?
    ensures |input| >= HEADER_SIZE && Value(Castagnoli(Covered(input))) == BE.Decoded(input[12..16])
    ensures |input| == HEADER_SIZE + BE.Decoded(input[8..12])
  {
  }

  /** A change confined to 32 consecutive covered bits of an accepted envelope is rejected. */
  lemma BurstRejected(good: seq<byte>, bad: seq<byte>, goodMax: nat, badMax: nat, i: nat, n: nat)
    requires Decoded(good, goodMax).Ok? && |bad| == |good|
    requires bad[12..16] == good[12..16]
    requires n <= 32 && DifferInWindow(Message(Covered(good)), Message(Covered(bad)), i, n)
    ensures Decoded(bad, badMax).Err?
  {
    hide Castagnoli, Message, Value;
    if Decoded(bad, badMax).Ok? {
      AcceptedChecksum(good, goodMax);
      AcceptedChecksum(bad, badMax);
      hide Decoded;
      BurstChangesChecksum(Covered(good), Covered(bad), i, n);
      ValueInjective(Castagnoli(Covered(good)), Castagnoli(Covered(bad)));
      assert false;
    }
  }

  /** The same for four consecutive covered bytes, whatever the payload length. */
  lemma FourByteBurstRejected(good: seq<byte>, bad: seq<byte>, goodMax: nat, badMax: nat, i: nat)
    requires Decoded(good, goodMax).Ok? && |bad| == |good| && bad != good
    requires bad[12..16] == good[12..16]
    requires i + 4 <= |Covered(good)|
    requires Covered(bad)[..i] == Covered(good)[..i] && Covered(bad)[i + 4..] == Covered(good)[i + 4..]
    ensures Decoded(bad, badMax).Err?
  {
    AcceptedChecksum(good, goodMax);
    hide Decoded, Castagnoli;
    CoveredDiffers(good, bad);
    MessageWindow(Covered(good), Covered(bad), i);
    BurstRejected(good, bad, goodMax, badMax, 8 * i, 32);
  }

  // ---- What the decoder says about damage ----

  /** Where everything is: magic, version one, kind and length most significant byte first, checksum, payload. */
  lemma Layout(e: Envelope)
    requires Encodable(e)
    ensures var s, n, crc := Encoded(e), |e.payload|, Value(Castagnoli(Encoded(e)[..12] + e.payload));
            && s[..6] == [0x4C, 0x47, 0x48, 0x55, 0, 1] && s[6..8] == [e.kind / 256, e.kind % 256]
            && s[8..12] == [n / 0x100_0000 % 256, n / 0x1_0000 % 256, n / 256 % 256, n % 256]
            && s[12..16] == [crc / 0x100_0000 % 256, crc / 0x1_0000 % 256, crc / 256 % 256, crc % 256]
            && s[16..] == e.payload
  {
    hide Prefix, Encoded, Castagnoli, Value, BE.Encoded;
    var s := Encoded(e);
    FieldsOfEncoding(e);
    SectionsOfEncoding(e);
    TwoBytes(VERSION);
    TwoBytes(e.kind);
    FourBytes(|e.payload|);
    FourBytes(Value(Castagnoli(s[..12] + e.payload)));
    assert s[..6] == s[..4] + s[4..6];
  }

  lemma TwoBytes(v: nat)
    requires v < 0x1_0000
    ensures BE.Encoded(v, 2) == [v / 256, v % 256]
  {
    hide BE.Encoded;
    BE.EncodedAt(v, 2, 0);
    BE.EncodedAt(v, 2, 1);
    assert Pow256(1) == 256 && Pow256(0) == 1;
  }

  lemma FourBytes(v: nat)
    ensures BE.Encoded(v, 4) == [v / 0x100_0000 % 256, v / 0x1_0000 % 256, v / 256 % 256, v % 256]
  {
    hide BE.Encoded;
    BE.EncodedAt(v, 4, 0);
    BE.EncodedAt(v, 4, 1);
    BE.EncodedAt(v, 4, 2);
    BE.EncodedAt(v, 4, 3);
    assert Pow256(0) == 1 && Pow256(1) == 256 && Pow256(2) == 0x1_0000 && Pow256(3) == 0x100_0000;
  }

  /** The error for a damaged header is that of the first damaged field. */
  lemma DamagedHeader(e: Envelope, bad: seq<byte>, maximum: nat)
    requires Encodable(e) && |e.payload| <= maximum && |bad| == |Encoded(e)|
    ensures var good, r := Encoded(e), Decoded(bad, maximum);
            && (bad[..4] != good[..4] ==> r == Err(CorruptData))
            && (bad[..4] == good[..4] && bad[4..6] != good[4..6] ==> r == Err(UnsupportedVersion))
            && (bad[..6] == good[..6] && bad[6..8] == [0, 0] ==> r == Err(InvalidInput))
            && (bad[..8] == good[..8] && bad[8..12] != good[8..12] ==>
                  r == if BE.Decoded(bad[8..12]) > maximum then Err(InvalidRange) else Err(CorruptData))
            && (bad[..12] == good[..12] && bad[12..16] != good[12..16] && bad[16..] == good[16..] ==>
                  r == Err(Checksum))
  {
    hide Encoded, Castagnoli, Value, Covered, BE.Decoded, BE.Encoded;
    var good := Encoded(e);
    Accepted(e, maximum);
    Fields(bad, good);
    FieldsDiffer(bad[4..6], good[4..6]);
    FieldsDiffer(bad[8..12], good[8..12]);
    FieldsDiffer(bad[12..16], good[12..16]);
    NoKind();
    if bad[..12] == good[..12] && bad[16..] == good[16..] {
      SameCovered(bad, good);
    }
  }

  /** The fields of an accepted encoding, as the decoder reads them. */
  lemma Accepted(e: Envelope, maximum: nat)
    requires Encodable(e) && |e.payload| <= maximum
    ensures var s := Encoded(e);
            && s[..4] == MAGIC && BE.Decoded(s[4..6]) == VERSION && BE.Decoded(s[6..8]) == e.kind != 0
            && BE.Decoded(s[8..12]) == |e.payload| && |s| == HEADER_SIZE + |e.payload|
            && BE.Decoded(s[12..16]) == Value(Castagnoli(Covered(s)))
  {
    hide Encoded, Castagnoli, Value, BE.Decoded;
    DecodeUndoesEncode(e, maximum);
    SectionsOfEncoding(e);
    AcceptedFields(Encoded(e), maximum);
  }

  lemma AcceptedFields(input: seq<byte>, maximum: nat)
    requires Decoded(input, maximum).Ok?
    ensures var e := Decoded(input, maximum).value;
            && |input| >= HEADER_SIZE && input[..4] == MAGIC && BE.Decoded(input[4..6]) == VERSION
            && BE.Decoded(input[6..8]) == e.kind != 0 && |input| == HEADER_SIZE + BE.Decoded(input[8..12])
            && BE.Decoded(input[12..16]) == Value(Castagnoli(Covered(input)))
  {
    hide Castagnoli, Value, BE.Decoded;
  }

  lemma Fields(bad: seq<byte>, good: seq<byte>)
    requires |bad| == |good| >= HEADER_SIZE
    ensures bad[..6] == good[..6] ==> bad[..4] == good[..4] && bad[4..6] == good[4..6]
    ensures bad[..8] == good[..8] ==> bad[..6] == good[..6] && bad[6..8] == good[6..8]
    ensures bad[..12] == good[..12] ==> bad[..8] == good[..8] && bad[8..12] == good[8..12]
  {
    assert bad[..4] == bad[..6][..4] && good[..4] == good[..6][..4];
    assert bad[4..6] == bad[..6][4..] && good[4..6] == good[..6][4..];
    assert bad[..6] == bad[..8][..6] && good[..6] == good[..8][..6];
    assert bad[6..8] == bad[..8][6..] && good[6..8] == good[..8][6..];
    assert bad[..8] == bad[..12][..8] && good[..8] == good[..12][..8];
    assert bad[8..12] == bad[..12][8..] && good[8..12] == good[..12][8..];
  }

  lemma FieldsDiffer(a: seq<byte>, b: seq<byte>)
    requires |a| == |b|
    ensures BE.Decoded(a) == BE.Decoded(b) <==> a == b
  {
    BE.EncodeDecode(a);
    BE.EncodeDecode(b);
  }

  lemma NoKind()
    ensures BE.Decoded([0, 0]) == 0
  {
    assert [0, 0][..1] == [0];
  }

  lemma SameCovered(bad: seq<byte>, good: seq<byte>)
    requires |bad| == |good| >= HEADER_SIZE && bad[..12] == good[..12] && bad[16..] == good[16..]
    ensures Covered(bad) == Covered(good)
  {
  }

  /** Damage within four consecutive bytes of kind or payload is a checksum error, unless the kind becomes zero. */
  lemma DamagedContent(e: Envelope, bad: seq<byte>, maximum: nat, i: nat)
    requires Encodable(e) && |e.payload| <= maximum && |bad| == |Encoded(e)| && bad != Encoded(e)
    requires bad[..6] == Encoded(e)[..6] && bad[8..16] == Encoded(e)[8..16] && bad[6..8] != [0, 0]
    requires i + 4 <= |Covered(bad)| && Covered(bad)[..i] == Covered(Encoded(e))[..i]
    requires Covered(bad)[i + 4..] == Covered(Encoded(e))[i + 4..]
    ensures Decoded(bad, maximum) == Err(Checksum)
  {
    hide Encoded, Castagnoli, Value, BE.Decoded, BE.Encoded, Decoded;
    var good := Encoded(e);
    Accepted(e, maximum);
    Fields(bad, good);
    assert bad[8..12] == bad[8..16][..4] && good[8..12] == good[8..16][..4];
    assert bad[12..16] == bad[8..16][4..] && good[12..16] == good[8..16][4..];
    FieldsDiffer(bad[6..8], [0, 0]);
    NoKind();
    DecodeUndoesEncode(e, maximum);
    FourByteBurstRejected(good, bad, maximum, maximum, i);
    OnlyChecksumLeft(bad, maximum);
  }

  lemma OnlyChecksumLeft(bad: seq<byte>, maximum: nat)
    requires |bad| >= HEADER_SIZE && bad[..4] == MAGIC && BE.Decoded(bad[4..6]) == VERSION && BE.Decoded(bad[6..8]) != 0
    requires BE.Decoded(bad[8..12]) <= maximum && |bad| == HEADER_SIZE + BE.Decoded(bad[8..12])
    ensures Decoded(bad, maximum).Ok? || Decoded(bad, maximum) == Err(Checksum)
  {
    hide Castagnoli, Value, BE.Decoded;
  }

  /** Damage within four consecutive payload bytes, however short the payload is. */
  lemma DamagedPayload(e: Envelope, payload: seq<byte>, maximum: nat, p: nat)
    requires Encodable(e) && |e.payload| <= maximum && |payload| == |e.payload| && payload != e.payload
    requires p <= |payload| && payload[..p] == e.payload[..p]
    requires p + 4 <= |payload| ==> payload[p + 4..] == e.payload[p + 4..]
    ensures Decoded(Encoded(e)[..16] + payload, maximum) == Err(Checksum)
  {
    hide Encoded, Castagnoli, Value, BE.Decoded, Prefix, Decoded, Covered;
    var good, bad := Encoded(e), Encoded(e)[..16] + payload;
    SectionsOfEncoding(e);
    KindIsNotZero(e, maximum);
    OtherPayload(good, payload);
    CoveredWindow(good[..12], payload, e.payload, p);
    DamagedContent(e, bad, maximum, if p + 4 <= |payload| then 12 + p else 8 + |payload|);
  }

  lemma OtherPayload(good: seq<byte>, payload: seq<byte>)
    requires |good| == 16 + |payload|
    ensures var bad := good[..16] + payload;
            && bad[..6] == good[..6] && bad[8..16] == good[8..16] && bad[6..8] == good[6..8] && bad[16..] == payload
            && (payload != good[16..] ==> bad != good)
            && Covered(bad) == good[..12] + payload && Covered(good) == good[..12] + good[16..]
  {
    var bad := good[..16] + payload;
    assert bad[16..] == payload && bad[..12] == good[..12];
  }

  lemma CoveredWindow(front: seq<byte>, a: seq<byte>, b: seq<byte>, p: nat)
    requires |front| == 12 && |a| == |b| && p <= |a| && a[..p] == b[..p]
    requires p + 4 <= |a| ==> a[p + 4..] == b[p + 4..]
    ensures var i := if p + 4 <= |a| then 12 + p else 8 + |a|;
            (front + a)[..i] == (front + b)[..i] && (front + a)[i + 4..] == (front + b)[i + 4..]
  {
    if p + 4 <= |a| {
      assert (front + a)[..12 + p] == front + a[..p] && (front + b)[..12 + p] == front + b[..p];
      assert (front + a)[16 + p..] == a[p + 4..] && (front + b)[16 + p..] == b[p + 4..];
    } else {
      ShortWindow(front, a, b, p);
    }
  }

  lemma ShortWindow(front: seq<byte>, a: seq<byte>, b: seq<byte>, p: nat)
    requires |front| == 12 && |a| == |b| && p <= |a| < p + 4 && a[..p] == b[..p]
    ensures (front + a)[..8 + |a|] == (front + b)[..8 + |a|] && (front + a)[12 + |a|..] == (front + b)[12 + |a|..]
  {
    forall k | 0 <= k < 8 + |a|
      ensures (front + a)[k] == (front + b)[k]
    {
      if k >= 12 {
        assert a[k - 12] == a[..p][k - 12] && b[k - 12] == b[..p][k - 12];
      }
    }
  }

  lemma KindIsNotZero(e: Envelope, maximum: nat)
    requires Encodable(e) && |e.payload| <= maximum
    ensures Encoded(e)[6..8] != [0, 0]
  {
    hide Encoded, Castagnoli, Value, BE.Decoded, BE.Encoded;
    Accepted(e, maximum);
    NoKind();
  }

  /** A length other than the header's is corrupt data; a payload above the caller's maximum is out of range. */
  lemma OtherLength(e: Envelope, bad: seq<byte>, maximum: nat)
    requires Encodable(e)
    ensures var good, r := Encoded(e), Decoded(bad, maximum);
            && (|bad| < 16 ==> r == Err(CorruptData))
            && (|bad| >= 16 && bad[..12] == good[..12] && |e.payload| > maximum ==> r == Err(InvalidRange))
            && (|bad| >= 16 && bad[..12] == good[..12] && |e.payload| <= maximum && |bad| != |good| ==>
                  r == Err(CorruptData))
  {
    hide Encoded, Castagnoli, Value, Covered, BE.Decoded, BE.Encoded;
    if |bad| >= 16 && bad[..12] == Encoded(e)[..12] {
      Accepted(e, |e.payload|);
      Fields(bad[..16], Encoded(e)[..16]);
      FrontFields(bad);
      FrontFields(Encoded(e));
    }
  }

  lemma FrontFields(s: seq<byte>)
    requires |s| >= 16
    ensures s[..16][..12] == s[..12] && s[..16][..4] == s[..4] && s[..16][4..6] == s[4..6]
    ensures s[..16][6..8] == s[6..8] && s[..16][8..12] == s[8..12]
  {
  }

  lemma CoveredDiffers(good: seq<byte>, bad: seq<byte>)
    requires |bad| == |good| >= HEADER_SIZE && bad != good && bad[12..16] == good[12..16]
    ensures Covered(good) != Covered(bad)
  {
    var p, q := Covered(good), Covered(bad);
    assert p[..12] == good[..12] && p[12..] == good[16..] && q[..12] == bad[..12] && q[12..] == bad[16..];
    assert good == good[..12] + good[12..16] + good[16..];
    assert bad == bad[..12] + bad[12..16] + bad[16..];
  }

  lemma MessageWindow(p: seq<byte>, q: seq<byte>, i: nat)
    requires |p| == |q| && i + 4 <= |p| && p != q
    requires p[..i] == q[..i] && p[i + 4..] == q[i + 4..]
    ensures DifferInWindow(Message(p), Message(q), 8 * i, 32)
  {
    hide Message;
    MessageSlices(p, i);
    MessageSlices(q, i);
    MessageSlices(p, i + 4);
    MessageSlices(q, i + 4);
    if Message(p) == Message(q) {
      MessageInjective(p, q);
    }
  }

  lemma {:induction false} MessageConcat(a: seq<byte>, b: seq<byte>)
    ensures Message(a + b) == Message(a) + Message(b)
  {
    if a == [] {
      assert a + b == b;
    } else {
      assert (a + b)[1..] == a[1..] + b;
      MessageConcat(a[1..], b);
    }
  }

  lemma MessageSlices(a: seq<byte>, i: nat)
    requires i <= |a|
    ensures Message(a)[..8 * i] == Message(a[..i]) && Message(a)[8 * i..] == Message(a[i..])
  {
    assert a == a[..i] + a[i..];
    MessageConcat(a[..i], a[i..]);
  }

  lemma {:induction false} MessageInjective(p: seq<byte>, q: seq<byte>)
    requires |p| == |q| && Message(p) == Message(q)
    ensures p == q
  {
    hide Bits;
    if p != [] {
      assert Message(p)[..8] == Bits(p[0], 8) && Message(q)[..8] == Bits(q[0], 8);
      assert Message(p)[8..] == Message(p[1..]) && Message(q)[8..] == Message(q[1..]);
      assert Pow2(8) == 256;
      BitsInjective(p[0], q[0], 8);
      MessageInjective(p[1..], q[1..]);
      assert p == [p[0]] + p[1..] && q == [q[0]] + q[1..];
    }
  }

  /** Every encoding holds an even number of ones, its stored checksum included. */
  lemma EncodingIsEven(e: Envelope)
    ensures !Odd(Message(Encoded(e)))
  {
    var covered := Prefix(e) + e.payload;
    MessageConcat(Prefix(e) + ChecksumBytes(covered), e.payload);
    MessageConcat(Prefix(e), ChecksumBytes(covered));
    MessageConcat(Prefix(e), e.payload);
    OddConcat(Message(Prefix(e)) + Message(ChecksumBytes(covered)), Message(e.payload));
    OddConcat(Message(Prefix(e)), Message(ChecksumBytes(covered)));
    OddConcat(Message(Prefix(e)), Message(e.payload));
    ChecksumParity(covered);
    WordBytesParity(Castagnoli(covered));
  }

  /** The low byte of a word, and the rest of it. */
  lemma LowByte(b: bits)
    requires |b| >= 8
    ensures Value(b) % 256 == Value(b[..8]) && Value(b) / 256 == Value(b[8..])
  {
    assert Pow2(8) == 256;
    hide Value, Pow2;
    var low, high := b[..8], b[8..];
    ValueBound(low);
    assert Value(b) == Value(low) + 256 * Value(high) by {
      assert b == low + high && |low| == 8;
      ValueConcat(low, high);
    }
    SplitByte(Value(b), Value(low), Value(high));
  }

  lemma SplitByte(v: nat, low: nat, high: nat)
    requires v == low + 256 * high && low < 256
    ensures v % 256 == low && v / 256 == high
  {
  }

  /** The big-endian bytes of a word hold its bits, eight at a time. */
  lemma {:induction false} WordBytesParity(b: bits)
    requires |b| % 8 == 0
    ensures Odd(Message(BE.Encoded(Value(b), |b| / 8))) == Odd(b)
    decreases |b|
  {
    hide Value, Odd, Message, BE.Encoded;
    if b == [] {
      NoParity();
    } else {
      var low, high := b[..8], b[8..];
      WordBytes(b);
      WordBytesParity(high);
      OddConcat(Message(BE.Encoded(Value(high), |high| / 8)), low);
      OddConcat(low, high);
      assert b == low + high;
    }
  }

  lemma NoParity()
    ensures Odd(Message(BE.Encoded(Value([]), 0))) == Odd([])
  {
  }

  lemma WordBytes(b: bits)
    requires |b| % 8 == 0 && b != []
    ensures Message(BE.Encoded(Value(b), |b| / 8)) == Message(BE.Encoded(Value(b[8..]), |b[8..]| / 8)) + b[..8]
  {
    hide Value, Message, Bits, BE.Encoded;
    var low, high := b[..8], b[8..];
    LowByte(b);
    BitsOfValue(low);
    ValueBound(low);
    BytePower(1);
    MessageOne(Value(low));
    EncodedStep(Value(b), |b| / 8);
    MessageConcat(BE.Encoded(Value(high), |high| / 8), [Value(low)]);
  }

  lemma MessageOne(b: byte)
    ensures Message([b]) == Bits(b, 8)
  {
  }

  lemma EncodedStep(value: nat, width: nat)
    requires width > 0
    ensures BE.Encoded(value, width) == BE.Encoded(value / 256, width - 1) + [value % 256]
  {
  }

  /** Flipping an odd number of bits anywhere in an accepted envelope, checksum included, is rejected. */
  lemma OddFlipsRejected(good: seq<byte>, bad: seq<byte>, goodMax: nat, badMax: nat)
    requires Decoded(good, goodMax).Ok? && |bad| == |good|
    requires Distance(Message(good), Message(bad)) % 2 == 1
    ensures Decoded(bad, badMax).Err?
  {
    if Decoded(bad, badMax).Ok? {
      EncodeUndoesDecode(good, goodMax);
      EncodeUndoesDecode(bad, badMax);
      EncodingIsEven(Decoded(good, goodMax).value);
      EncodingIsEven(Decoded(bad, badMax).value);
      DistanceParity(Message(good), Message(bad));
      assert false;
    }
  }

  lemma SharedLengthField(a: seq<byte>, b: seq<byte>)
    requires a < b || b < a
    requires |a| >= HEADER_SIZE && |b| >= HEADER_SIZE
    ensures a[8..12] == b[8..12] && |a| != |b|
  {
  }

  /** Every proper prefix and every proper extension of an accepted envelope is rejected. */
  lemma NoPrefixNoTrailer(good: seq<byte>, bad: seq<byte>, goodMax: nat, badMax: nat)
    requires Decoded(good, goodMax).Ok?
    requires bad < good || good < bad
    ensures Decoded(bad, badMax).Err?
  {
    hide Castagnoli, Value;
    if Decoded(bad, badMax).Ok? {
      AcceptedChecksum(good, goodMax);
      AcceptedChecksum(bad, badMax);
      hide Decoded;
      SharedLengthField(good, bad);
    }
  }
}
