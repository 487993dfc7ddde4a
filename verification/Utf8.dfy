/** The UTF-8 validator behind `OtlpText`, against section 4 of RFC 3629. */
module Utf8 {
  import opened Words

  /** A Unicode scalar value: a code point that is not a surrogate. */
  type scalar = c: int | 0 <= c < 0xD800 || 0xE000 <= c <= 0x10_FFFF

  function EncodeScalar(c: scalar): (r: seq<byte>)
    ensures 1 <= |r| <= 4
  {
    if c < 0x80 then [c]
    else if c < 0x800 then [0xC0 + c / 0x40, 0x80 + c % 0x40]
    else if c < 0x1_0000 then [0xE0 + c / 0x40 / 0x40, 0x80 + c / 0x40 % 0x40, 0x80 + c % 0x40]
    else [0xF0 + c / 0x40 / 0x40 / 0x40, 0x80 + c / 0x40 / 0x40 % 0x40, 0x80 + c / 0x40 % 0x40, 0x80 + c % 0x40]
  }

  function Encode(cs: seq<scalar>): seq<byte> {
    if cs == [] then [] else EncodeScalar(cs[0]) + Encode(cs[1..])
  }

  ghost predicate WellFormed(text: seq<byte>) {
    exists cs: seq<scalar> :: Encode(cs) == text
  }

  predicate Continuation(b: byte) {
    b / 0x40 == 2
  }

  /** The length of the scalar value at the front of a text, or 0 when there is none. */
  function HeadLength(text: seq<byte>): (n: nat)
    requires text != []
    ensures n <= |text| && n <= 4
  {
    var first := text[0];
    if first <= 0x7F then 1
    else if 0xC2 <= first <= 0xDF then
      if 1 >= |text| || !Continuation(text[1]) then 0 else 2
    else if 0xE0 <= first <= 0xEF then
      if 2 >= |text| || !Continuation(text[1]) || !Continuation(text[2])
         || (first == 0xE0 && text[1] < 0xA0) || (first == 0xED && text[1] >= 0xA0) then 0 else 3
    else if 0xF0 <= first <= 0xF4 then
      if 3 >= |text| || !Continuation(text[1]) || !Continuation(text[2]) || !Continuation(text[3])
         || (first == 0xF0 && text[1] < 0x90) || (first == 0xF4 && text[1] >= 0x90) then 0 else 4
    else 0
  }

  /** Reassembles the payload bits of one encoded scalar value, six at a time. */
  function FromBytes(r: seq<byte>): int
    requires 1 <= |r| <= 4
  {
    if |r| == 1 then r[0]
    else if |r| == 2 then Join(r[0] as int - 0xC0, r[1])
    else if |r| == 3 then Join(Join(r[0] as int - 0xE0, r[1]), r[2])
    else Join(Join(Join(r[0] as int - 0xF0, r[1]), r[2]), r[3])
  }

  function Join(high: int, low: byte): (r: int)
    ensures Continuation(low) ==> r / 0x40 == high && r % 0x40 + 0x80 == low
  {
    high * 0x40 + (low as int - 0x80)
  }

  lemma ScalarFromBytes(c: scalar)
    ensures FromBytes(EncodeScalar(c)) == c
  {
    assert Join(c / 0x40, 0x80 + c % 0x40) == c;
    assert Join(c / 0x40 / 0x40, 0x80 + c / 0x40 % 0x40) == c / 0x40;
    assert Join(c / 0x40 / 0x40 / 0x40, 0x80 + c / 0x40 / 0x40 % 0x40) == c / 0x40 / 0x40;
    hide Join;
  }

  /** The scalar value at the front of a text. */
  function HeadScalar(text: seq<byte>): (c: scalar)
    requires text != [] && HeadLength(text) != 0
    ensures EncodeScalar(c) == text[..HeadLength(text)]
  {
    BytesFromScalar(text);
    FromBytes(text[..HeadLength(text)])
  }

  lemma BytesFromScalar(text: seq<byte>)
    requires text != [] && HeadLength(text) != 0
    ensures var c := FromBytes(text[..HeadLength(text)]);
            && (0 <= c < 0xD800 || 0xE000 <= c <= 0x10_FFFF)
            && EncodeScalar(c) == text[..HeadLength(text)]
  {
    hide Join, EncodeScalar, Continuation;
    var n := HeadLength(text);
    if n == 2 {
      TwoBytes(text[0], text[1]);
      assert text[..n] == [text[0], text[1]];
    } else if n == 3 {
      ThreeBytes(text[0], text[1], text[2]);
      assert text[..n] == [text[0], text[1], text[2]];
    } else if n == 4 {
      FourBytes(text[0], text[1], text[2], text[3]);
      assert text[..n] == [text[0], text[1], text[2], text[3]];
    } else {
      OneByte(text[0]);
      assert text[..n] == [text[0]];
    }
  }

  lemma OneByte(a: byte)
    requires a <= 0x7F
    ensures EncodeScalar(a) == [a]
  {
  }

  lemma TwoBytes(a: byte, b: byte)
    requires 0xC2 <= a <= 0xDF && Continuation(b)
    ensures var c := Join(a as int - 0xC0, b); 0x80 <= c < 0x800 && EncodeScalar(c) == [a, b]
  {
  }

  lemma ThreeBytes(a: byte, b: byte, c: byte)
    requires 0xE0 <= a <= 0xEF && Continuation(b) && Continuation(c)
    requires (a == 0xE0 ==> b >= 0xA0) && (a == 0xED ==> b < 0xA0)
    ensures var d := Join(Join(a as int - 0xE0, b), c);
            (0x800 <= d < 0xD800 || 0xE000 <= d < 0x1_0000) && EncodeScalar(d) == [a, b, c]
  {
    hide Join;
  }

  lemma FourBytes(a: byte, b: byte, c: byte, d: byte)
    requires 0xF0 <= a <= 0xF4 && Continuation(b) && Continuation(c) && Continuation(d)
    requires (a == 0xF0 ==> b >= 0x90) && (a == 0xF4 ==> b < 0x90)
    ensures var e := Join(Join(Join(a as int - 0xF0, b), c), d);
            0x1_0000 <= e <= 0x10_FFFF && EncodeScalar(e) == [a, b, c, d]
  {
    hide Join;
  }

  lemma HeadOfEncoding(c: scalar, rest: seq<byte>)
    ensures HeadLength(EncodeScalar(c) + rest) == |EncodeScalar(c)|
    ensures HeadScalar(EncodeScalar(c) + rest) == c
  {
    EncodedHeadLength(c, rest);
    ScalarFromBytes(c);
    assert (EncodeScalar(c) + rest)[..|EncodeScalar(c)|] == EncodeScalar(c);
  }

  lemma EncodedHeadLength(c: scalar, rest: seq<byte>)
    ensures HeadLength(EncodeScalar(c) + rest) == |EncodeScalar(c)|
  {
  }

  /** The one decomposition of a text into scalar values, if it has any. */
  function Decode(text: seq<byte>): Option<seq<scalar>>
    decreases |text|
  {
    if text == [] then Some([])
    else if HeadLength(text) == 0 then None
    else
      var rest := Decode(text[HeadLength(text)..]);
      if rest.None? then None else Some([HeadScalar(text)] + rest.value)
  }

  lemma {:induction false} DecodeSound(text: seq<byte>)
    requires Decode(text).Some?
    ensures Encode(Decode(text).value) == text
    decreases |text|
  {
    hide HeadLength, HeadScalar, EncodeScalar;
    if text != [] {
      var n := HeadLength(text);
      DecodeSound(text[n..]);
      var cs := Decode(text).value;
      assert cs[1..] == Decode(text[n..]).value && cs[0] == HeadScalar(text);
      assert text == text[..n] + text[n..];
    }
  }

  lemma {:induction false} DecodeComplete(cs: seq<scalar>)
    ensures Decode(Encode(cs)) == Some(cs)
    decreases |cs|
  {
    if cs != [] {
      HeadOfEncoding(cs[0], Encode(cs[1..]));
      DecodeComplete(cs[1..]);
      var text := Encode(cs);
      assert text[HeadLength(text)..] == Encode(cs[1..]);
      assert cs == [cs[0]] + cs[1..];
    }
  }

  /** A text has at most one decomposition into encoded scalar values. */
  lemma UniqueDecomposition(a: seq<scalar>, b: seq<scalar>)
    requires Encode(a) == Encode(b)
    ensures a == b
  {
    DecodeComplete(a);
    DecodeComplete(b);
  }

  lemma WellFormedIffDecodes(text: seq<byte>)
    ensures WellFormed(text) <==> Decode(text).Some?
  {
    if Decode(text).Some? {
      DecodeSound(text);
    }
    if WellFormed(text) {
      var cs: seq<scalar> :| Encode(cs) == text;
      DecodeComplete(cs);
    }
  }

  // ---- The grammar of the standard ----

  predicate Tail(b: byte) {
    0x80 <= b <= 0xBF
  }

  /** One character: a row of the table in section 4 of RFC 3629. */
  predicate Character(c: seq<byte>) {
    || (|c| == 1 && c[0] <= 0x7F)
    || (|c| == 2 && 0xC2 <= c[0] <= 0xDF && Tail(c[1]))
    || (|c| == 3 && Tail(c[2])
        && (|| (c[0] == 0xE0 && 0xA0 <= c[1] <= 0xBF) || (0xE1 <= c[0] <= 0xEC && Tail(c[1]))
            || (c[0] == 0xED && 0x80 <= c[1] <= 0x9F) || (0xEE <= c[0] <= 0xEF && Tail(c[1]))))
    || (|c| == 4 && Tail(c[2]) && Tail(c[3])
        && (|| (c[0] == 0xF0 && 0x90 <= c[1] <= 0xBF) || (0xF1 <= c[0] <= 0xF3 && Tail(c[1]))
            || (c[0] == 0xF4 && 0x80 <= c[1] <= 0x8F)))
  }

  lemma HeadIsCharacter(text: seq<byte>, n: nat)
    requires 0 < n <= |text|
    ensures Character(text[..n]) <==> HeadLength(text) == n
  {
    forall i | 0 <= i < n
      ensures text[..n][i] == text[i]
    {
    }
  }

  /** A text is well formed exactly when it is empty or a character followed by a well-formed text. */
  lemma Grammar(text: seq<byte>)
    ensures WellFormed(text)
            <==> text == [] || exists n :: 0 < n <= |text| && Character(text[..n]) && WellFormed(text[n..])
  {
    hide HeadLength, Character, WellFormed;
    WellFormedIffDecodes(text);
    if text != [] {
      var n := HeadLength(text);
      if n > 0 {
        HeadIsCharacter(text, n);
        WellFormedIffDecodes(text[n..]);
      }
      forall k | 0 < k <= |text| && Character(text[..k])
        ensures k == n
      {
        HeadIsCharacter(text, k);
      }
    }
  }

  /** The index loop accepts exactly the concatenations of encoded scalar values. */
  method ValidUtf8(text: seq<byte>) returns (valid: bool)
    ensures valid <==> WellFormed(text)
  {
    WellFormedIffDecodes(text);
    var index := 0;
    while index < |text|
      invariant index <= |text|
      invariant Decode(text).Some? <==> Decode(text[index..]).Some?
    {
      ghost var rest := text[index..];
      var first := text[index];
      if first <= 0x7F {
        index := index + 1;
      } else if first >= 0xC2 && first <= 0xDF {
        if index + 1 >= |text| || !Continuation(text[index + 1]) {
          return false;
        }
        index := index + 2;
      } else if first >= 0xE0 && first <= 0xEF {
        if index + 2 >= |text| {
          return false;
        }
        var second, third := text[index + 1], text[index + 2];
        if !Continuation(second) || !Continuation(third)
           || (first == 0xE0 && second < 0xA0) || (first == 0xED && second >= 0xA0) {
          return false;
        }
        index := index + 3;
      } else if first >= 0xF0 && first <= 0xF4 {
        if index + 3 >= |text| {
          return false;
        }
        var second := text[index + 1];
        if !Continuation(second) || !Continuation(text[index + 2]) || !Continuation(text[index + 3])
           || (first == 0xF0 && second < 0x90) || (first == 0xF4 && second >= 0x90) {
          return false;
        }
        index := index + 4;
      } else {
        return false;
      }
      assert rest[HeadLength(rest)..] == text[index..];
    }
    valid := true;
  }

  /** What an `OtlpText<capacity>` can hold. */
  ghost predicate IsText(text: seq<byte>, capacity: nat) {
    |text| <= capacity && WellFormed(text)
  }

  /** Bytes below 0x80 stand for themselves. */
  lemma AsciiWellFormed(text: seq<byte>)
    requires forall i :: 0 <= i < |text| ==> text[i] < 0x80
    ensures WellFormed(text)
  {
    WellFormedIffDecodes(text);
    AsciiDecodes(text);
  }

  lemma {:induction false} AsciiDecodes(text: seq<byte>)
    requires forall i :: 0 <= i < |text| ==> text[i] < 0x80
    ensures Decode(text).Some?
  {
    if text != [] {
      AsciiDecodes(text[1..]);
    }
  }

  method TextFrom(text: seq<byte>, capacity: nat) returns (r: Result<seq<byte>>)
    ensures r.Ok? <==> IsText(text, capacity)
    ensures r.Ok? ==> r.value == text
    ensures r.Err? ==> r.error == if |text| > capacity then Exhaustion else InvalidInput
  {
    if |text| > capacity {
      return Err(Exhaustion);
    }
    var valid := ValidUtf8(text);
    if !valid {
      return Err(InvalidInput);
    }
    var bytes: seq<byte> := seq(capacity, i => 0);
    for index := 0 to |text|
      invariant |bytes| == capacity
      invariant bytes[..index] == text[..index]
    {
      bytes := bytes[index := text[index]];
    }
    assert text[..|text|] == text;
    r := Ok(bytes[..|text|]);
  }
}
