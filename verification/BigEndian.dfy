/** The fixed-width big-endian codec shared by every persistent format. */
module BigEndian {
  import opened Arithmetic
  import opened Words

  /** The `width` bytes of a number, most significant first. */
  function Encoded(value: nat, width: nat): (r: seq<byte>)
    ensures |r| == width
    decreases width
  {
    if width == 0 then [] else Encoded(value / 256, width - 1) + [value % 256]
  }

  function Decoded(bytes: seq<byte>): nat
    decreases |bytes|
  {
    if bytes == [] then 0
    else 256 * Decoded(bytes[..|bytes| - 1]) + bytes[|bytes| - 1]
  }

  lemma {:induction false} DecodeEncode(value: nat, width: nat)
    requires value < Pow256(width)
    ensures Decoded(Encoded(value, width)) == value
    decreases width
  {
    if width > 0 {
      DecodeEncode(value / 256, width - 1);
      assert Encoded(value, width)[..width - 1] == Encoded(value / 256, width - 1);
    }
  }

  lemma {:induction false} EncodeDecode(bytes: seq<byte>)
    ensures Decoded(bytes) < Pow256(|bytes|)
    ensures Encoded(Decoded(bytes), |bytes|) == bytes
    decreases |bytes|
  {
    if bytes != [] {
      EncodeDecode(bytes[..|bytes| - 1]);
    }
  }

  // ---- The loops of the source ----

  lemma {:induction false} EncodedAt(value: nat, width: nat, i: nat)
    requires i < width
    ensures Encoded(value, width)[i] == value / Pow256(width - 1 - i) % 256
    decreases width
  {
    if i < width - 1 {
      EncodedAt(value / 256, width - 1, i);
      DivideTwice(value, 256, Pow256(width - 2 - i));
    }
  }

  method EncodeLoop(value: nat, width: nat) returns (encoded: seq<byte>)
    ensures encoded == Encoded(value, width)
  {
    encoded := [];
    for index := 0 to width
      invariant encoded == Encoded(value, width)[..index]
    {
      EncodedAt(value, width, index);
      encoded := encoded + [value / Pow256(width - 1 - index) % 256];
    }
  }

  method DecodeLoop(encoded: seq<byte>, width: nat) returns (r: Result<nat>)
    ensures r == if |encoded| == width then Ok(Decoded(encoded)) else Err(InvalidRange)
  {
    if |encoded| != width {
      return Err(InvalidRange);
    }
    var value: nat := 0;
    for index := 0 to |encoded|
      invariant value == Decoded(encoded[..index])
    {
      assert encoded[..index + 1][..index] == encoded[..index];
      value := value * 256 + encoded[index];
    }
    assert encoded[..|encoded|] == encoded;
    r := Ok(value);
  }
}
