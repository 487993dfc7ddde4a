/**
 CRC-32C as the envelope computes it (section 12.1 of RFC 3720), the polynomial remainder it is,
 and the errors it must detect.
 */
module Crc32c {
  import opened BitStrings
  import opened Words

  /** The reflected polynomial 0x82F63B78. */
  const POLY: bits :=
    [false, false, false, true, true, true, true, false]
    + [true, true, false, true, true, true, false, false]
    + [false, true, true, false, true, true, true, true]
    + [false, true, false, false, false, false, false, true]

  /** One bit of the reflected shift register. */
  function BitStep(state: bits): (r: bits)
    requires |state| == 32
    ensures |r| == 32
  {
    var shifted := state[1..] + [false];
    if state[0] then Xor(shifted, POLY) else shifted
  }

  function Steps(state: bits, n: nat): (r: bits)
    requires |state| == 32
    ensures |r| == 32
    decreases n
  {
    if n == 0 then state else Steps(BitStep(state), n - 1)
  }

  /** A byte widened to a word. */
  function Widen(b: byte): (r: bits)
    ensures |r| == 32
  {
    Bits(b, 8) + Zeros(24)
  }

  function Extend(state: bits, bytes: seq<byte>): (r: bits)
    requires |state| == 32
    ensures |r| == 32
    decreases |bytes|
  {
    if bytes == [] then state else Extend(Steps(Xor(state, Widen(bytes[0])), 8), bytes[1..])
  }

  function Castagnoli(bytes: seq<byte>): (r: bits)
    ensures |r| == 32
  {
    Xor(Extend(Ones(32), bytes), Ones(32))
  }

  // ---- The loops of the source ----

  method ExtendByte(initial: bits, b: byte) returns (state: bits)
    requires |initial| == 32
    ensures state == Steps(Xor(initial, Widen(b)), 8)
  {
    hide Steps, Widen, Xor;
    state := Xor(initial, Widen(b));
    ghost var entry := state;
    StepsEnd(entry, 8);
    for bit := 0 to 8
      invariant |state| == 32
      invariant Steps(state, 8 - bit) == Steps(entry, 8)
    {
      StepsEnd(state, 8 - bit);
      var low := state[0];
      var shifted := state[1..] + [false];
      state := if low then Xor(shifted, POLY) else shifted;
    }
    StepsEnd(state, 0);
  }

  lemma StepsEnd(state: bits, n: nat)
    requires |state| == 32
    ensures Steps(state, 0) == state
    ensures n > 0 ==> Steps(state, n) == Steps(BitStep(state), n - 1)
  {
  }

  method ExtendLoop(initial: bits, bytes: seq<byte>) returns (state: bits)
    requires |initial| == 32
    ensures state == Extend(initial, bytes)
  {
    state := initial;
    for index := 0 to |bytes|
      invariant |state| == 32
      invariant Extend(state, bytes[index..]) == Extend(initial, bytes)
    {
      assert bytes[index..][1..] == bytes[index + 1..];
      state := ExtendByte(state, bytes[index]);
    }
  }

  /** The two-span entry point is the checksum of the concatenation. */
  method CastagnoliPair(first: seq<byte>, second: seq<byte>) returns (crc: bits)
    ensures crc == Castagnoli(first + second)
  {
    var middle := ExtendLoop(Ones(32), first);
    var state := ExtendLoop(middle, second);
    ExtendConcat(Ones(32), first, second);
    crc := Xor(state, Ones(32));
  }

  lemma {:induction false} ExtendConcat(state: bits, first: seq<byte>, second: seq<byte>)
    requires |state| == 32
    ensures Extend(state, first + second) == Extend(Extend(state, first), second)
    decreases |first|
  {
    if first == [] {
      assert first + second == second;
    } else {
      assert (first + second)[1..] == first[1..] + second;
      ExtendConcat(Steps(Xor(state, Widen(first[0])), 8), first[1..], second);
    }
  }

  // ---- The register is a linear bijection ----

  lemma ValueStep(b: bits, i: nat)
    requires i < |b|
    ensures Value(b[i..]) == (if b[i] then 1 else 0) + 2 * Value(b[i + 1..])
    ensures Value(b[|b|..]) == 0
  {
    assert b[i..][1..] == b[i + 1..];
  }

  function Bit(b: bool): nat {
    if b then 1 else 0
  }

  lemma NibbleValue(b: bits, i: nat)
    requires i + 4 <= |b|
    ensures Value(b[i..]) == Bit(b[i]) + 2 * Bit(b[i + 1]) + 4 * Bit(b[i + 2]) + 8 * Bit(b[i + 3])
                             + 16 * Value(b[i + 4..])
  {
    hide Value;
    ValueStep(b, i);
    ValueStep(b, i + 1);
    ValueStep(b, i + 2);
    ValueStep(b, i + 3);
  }

  lemma ByteValue(b: bits, i: nat)
    requires i + 8 <= |b|
    ensures Value(b[i..]) == Bit(b[i]) + 2 * Bit(b[i + 1]) + 4 * Bit(b[i + 2]) + 8 * Bit(b[i + 3])
                             + 16 * Bit(b[i + 4]) + 32 * Bit(b[i + 5]) + 64 * Bit(b[i + 6]) + 128 * Bit(b[i + 7])
                             + 256 * Value(b[i + 8..])
  {
    hide Value, Bit;
    NibbleValue(b, i);
    NibbleValue(b, i + 4);
  }

  ghost predicate PolynomialPattern(p: bits) {
    && |p| == 32
    && !p[0] && !p[1] && !p[2] && p[3] && p[4] && p[5] && p[6] && !p[7]
    && p[8] && p[9] && !p[10] && p[11] && p[12] && p[13] && !p[14] && !p[15]
    && !p[16] && p[17] && p[18] && !p[19] && p[20] && p[21] && p[22] && p[23]
    && !p[24] && p[25] && !p[26] && !p[27] && !p[28] && !p[29] && !p[30] && p[31]
  }

  lemma ValueOfPattern(p: bits)
    requires PolynomialPattern(p)
    ensures Value(p) == 0x82F6_3B78
  {
    hide Value;
    ValueStep(p, 31);
    ByteValue(p, 24);
    ByteValue(p, 16);
    ByteValue(p, 8);
    ByteValue(p, 0);
    assert p[0..] == p;
  }

  lemma PolynomialValue(p: bits)
    requires p == POLY
    ensures Value(p) == 0x82F6_3B78
  {
    hide Value;
    assert PolynomialPattern(p);
    ValueOfPattern(p);
  }

  lemma BitStepLinear(a: bits, b: bits)
    requires |a| == |b| == 32
    ensures BitStep(Xor(a, b)) == Xor(BitStep(a), BitStep(b))
  {
  }

  lemma BitStepInjective(a: bits, b: bits)
    requires |a| == |b| == 32 && BitStep(a) == BitStep(b)
    ensures a == b
  {
    assert BitStep(a)[31] == a[0] && BitStep(b)[31] == b[0];
    forall i | 1 <= i < 32
      ensures a[i] == b[i]
    {
      assert BitStep(a)[i - 1] == BitStep(b)[i - 1];
    }
  }

  lemma {:induction false} StepsInjective(a: bits, b: bits, n: nat)
    requires |a| == |b| == 32 && Steps(a, n) == Steps(b, n)
    ensures a == b
    decreases n
  {
    if n > 0 {
      StepsInjective(BitStep(a), BitStep(b), n - 1);
      BitStepInjective(a, b);
    }
  }

  // ---- The register read bit by bit ----

  /** The message as the register sees it: every byte, least significant bit first. */
  function Message(bytes: seq<byte>): (r: bits)
    ensures |r| == 8 * |bytes|
    decreases |bytes|
  {
    if bytes == [] then [] else Bits(bytes[0], 8) + Message(bytes[1..])
  }

  /** Feeds one message bit per step into the low end of the register. */
  function Feed(state: bits, message: bits): (r: bits)
    requires |state| == 32
    ensures |r| == 32
    decreases |message|
  {
    if message == [] then state
    else Feed(BitStep([state[0] != message[0]] + state[1..]), message[1..])
  }

  /** Up to 32 message bits act on the register as one word. */
  lemma {:induction false} FeedIsWord(state: bits, m: bits)
    requires |state| == 32 && |m| <= 32
    ensures Feed(state, m) == Steps(Xor(state, m + Zeros(32 - |m|)), |m|)
    decreases |m|
  {
    if m == [] {
      assert Xor(state, m + Zeros(32)) == state;
    } else {
      var t := m[1..];
      var head := [state[0] != m[0]] + state[1..];
      var rest := [false] + t + Zeros(31 - |t|);
      FeedIsWord(BitStep(head), t);
      assert BitStep(rest) == t + Zeros(32 - |t|);
      BitStepLinear(head, rest);
      assert Xor(head, rest) == Xor(state, m + Zeros(32 - |m|));
    }
  }

  lemma {:induction false} FeedConcat(state: bits, a: bits, b: bits)
    requires |state| == 32
    ensures Feed(state, a + b) == Feed(Feed(state, a), b)
    decreases |a|
  {
    if a == [] {
      assert a + b == b;
    } else {
      assert (a + b)[1..] == a[1..] + b;
      FeedConcat(BitStep([state[0] != a[0]] + state[1..]), a[1..], b);
    }
  }

  /** The byte-wise loop is the bit-serial register. */
  lemma {:induction false} ExtendIsFeed(state: bits, bytes: seq<byte>)
    requires |state| == 32
    ensures Extend(state, bytes) == Feed(state, Message(bytes))
    decreases |bytes|
  {
    if bytes != [] {
      var m := Bits(bytes[0], 8);
      FeedIsWord(state, m);
      FeedConcat(state, m, Message(bytes[1..]));
      ExtendIsFeed(Feed(state, m), bytes[1..]);
    }
  }

  /** The register never forgets: different states stay different over any common message. */
  lemma {:induction false} FeedInjective(a: bits, b: bits, m: bits)
    requires |a| == |b| == 32 && Feed(a, m) == Feed(b, m)
    ensures a == b
    decreases |m|
  {
    if m != [] {
      var a', b' := [a[0] != m[0]] + a[1..], [b[0] != m[0]] + b[1..];
      FeedInjective(BitStep(a'), BitStep(b'), m[1..]);
      BitStepInjective(a', b');
      assert a == [a'[0] != m[0]] + a'[1..] && b == [b'[0] != m[0]] + b'[1..];
    }
  }

  // ---- The register holds a polynomial remainder ----

  // A bit string is also a polynomial over the two-element field, its first bit the coefficient of
  // the highest power. The register, first bit x^31, is a polynomial of degree below 32.

  /** x^32 plus the terms of the register polynomial. */
  const GENERATOR: bits := [true] + POLY

  /** The number a bit string denotes when its first bit is the most significant. */
  function HighFirst(b: bits, above: nat): nat {
    if b == [] then above else HighFirst(b[1..], 2 * above + Bit(b[0]))
  }

  lemma HighNibble(b: bits, i: nat, above: nat)
    requires i + 4 <= |b|
    ensures HighFirst(b[i..], above)
            == HighFirst(b[i + 4..], 16 * above + 8 * Bit(b[i]) + 4 * Bit(b[i + 1]) + 2 * Bit(b[i + 2]) + Bit(b[i + 3]))
  {
    hide HighFirst, Bit;
    HighStep(b, i, above);
    HighStep(b, i + 1, 2 * above + Bit(b[i]));
    HighStep(b, i + 2, 4 * above + 2 * Bit(b[i]) + Bit(b[i + 1]));
    HighStep(b, i + 3, 8 * above + 4 * Bit(b[i]) + 2 * Bit(b[i + 1]) + Bit(b[i + 2]));
  }

  lemma HighStep(b: bits, i: nat, above: nat)
    requires i < |b|
    ensures HighFirst(b[i..], above) == HighFirst(b[i + 1..], 2 * above + Bit(b[i]))
  {
    assert b[i..][1..] == b[i + 1..];
  }

  /** The generator is the Castagnoli polynomial, 0x11EDC6F41 with its leading term. */
  lemma GeneratorIsCastagnoli(p: bits)
    requires p == POLY
    ensures HighFirst(p, 1) == 0x1_1EDC_6F41
  {
    hide HighFirst;
    assert PolynomialPattern(p);
    HighOfPattern(p);
  }

  lemma HighByte(b: bits, i: nat, above: nat)
    requires i + 8 <= |b|
    ensures HighFirst(b[i..], above)
            == HighFirst(b[i + 8..], 256 * above + 128 * Bit(b[i]) + 64 * Bit(b[i + 1]) + 32 * Bit(b[i + 2])
                                     + 16 * Bit(b[i + 3]) + 8 * Bit(b[i + 4]) + 4 * Bit(b[i + 5])
                                     + 2 * Bit(b[i + 6]) + Bit(b[i + 7]))
  {
    hide HighFirst, Bit;
    var high := 16 * above + 8 * Bit(b[i]) + 4 * Bit(b[i + 1]) + 2 * Bit(b[i + 2]) + Bit(b[i + 3]);
    HighNibble(b, i, above);
    HighNibble(b, i + 4, high);
  }

  lemma HighOfPattern(p: bits)
    requires PolynomialPattern(p)
    ensures HighFirst(p, 1) == 0x1_1EDC_6F41
  {
    assert HighFirst(p[32..], 0x1_1EDC_6F41) == 0x1_1EDC_6F41;
    hide HighFirst;
    HighByte(p, 24, 0x11E_DC6F);
    HighByte(p, 16, 0x1_1EDC);
    HighByte(p, 8, 0x11E);
    HighByte(p, 0, 1);
    assert p[0..] == p;
  }

  /** The generator, or nothing, shifted up by n. */
  function Top(bit: bool, n: nat): (r: bits)
    ensures |r| == n + 33 && r[0] == bit
  {
    (if bit then GENERATOR else Zeros(33)) + Zeros(n)
  }

  /** The product of a polynomial with the generator, as long as both together less one. */
  function TimesGenerator(q: bits): (r: bits)
    ensures |r| == |q| + 32
    decreases |q|
  {
    if q == [] then Zeros(32)
    else Xor(Top(q[0], |q| - 1), [false] + TimesGenerator(q[1..]))
  }

  /** The quotient of the register's division: the bit shifted out at every step. */
  function Quotient(state: bits, message: bits): (r: bits)
    requires |state| == 32
    ensures |r| == |message|
    decreases |message|
  {
    if message == [] then []
    else
      var head := [state[0] != message[0]] + state[1..];
      [head[0]] + Quotient(BitStep(head), message[1..])
  }

  /** A dividend is quotient times generator plus a remainder of degree below 32. */
  ghost predicate Divides(dividend: bits, quotient: bits, remainder: bits) {
    && |remainder| == 32 && |dividend| == |quotient| + 32
    && dividend == Xor(TimesGenerator(quotient), Zeros(|quotient|) + remainder)
  }

  /** What the register divides: its state in front, and the message followed by 32 zeros. */
  function Dividend(state: bits, message: bits): (r: bits)
    requires |state| == 32
    ensures |r| == |message| + 32
  {
    Xor(state + Zeros(|message|), message + Zeros(32))
  }

  /** Subtracting the generator under the leading term is one step of the register. */
  lemma DividendStep(state: bits, m: bits)
    requires |state| == 32 && m != []
    ensures var head := [state[0] != m[0]] + state[1..];
            Dividend(state, m)
            == Xor(Top(head[0], |m| - 1), [false] + Dividend(BitStep(head), m[1..]))
  {
    var head := [state[0] != m[0]] + state[1..];
    var shifted := state[1..] + [false];
    assert BitStep(head) == if head[0] then Xor(shifted, POLY) else shifted;
    var left := Dividend(state, m);
    var right := Xor(Top(head[0], |m| - 1), [false] + Dividend(BitStep(head), m[1..]));
    assert |left| == |right|;
    forall i | 0 <= i < |left|
      ensures left[i] == right[i]
    {
      DividendBit(state, m, i);
    }
  }

  lemma DividendBit(state: bits, m: bits, i: nat)
    requires |state| == 32 && m != [] && i < |m| + 32
    ensures var head := [state[0] != m[0]] + state[1..];
            Dividend(state, m)[i] == Xor(Top(head[0], |m| - 1), [false] + Dividend(BitStep(head), m[1..]))[i]
  {
    hide BitStep, Top;
    var head := [state[0] != m[0]] + state[1..];
    if i == 0 {
      assert (state + Zeros(|m|))[0] == state[0] && (m + Zeros(32))[0] == m[0];
    } else {
      var next := BitStep(head);
      ShiftedBit(head, |m|, i);
      assert (m[1..] + Zeros(32))[i - 1] == (m + Zeros(32))[i];
      assert (state + Zeros(|m|))[i] == (head + Zeros(|m|))[i];
    }
  }

  /** What a step does to one bit: the next one moves in, and the generator is added if the first one was set. */
  lemma ShiftedBit(head: bits, n: nat, i: nat)
    requires |head| == 32 && n > 0 && 1 <= i < n + 32
    ensures (BitStep(head) + Zeros(n - 1))[i - 1] == ((head + Zeros(n))[i] != Top(head[0], n - 1)[i])
  {
    if i <= 32 {
      assert (head[1..] + [false])[i - 1] == (head + Zeros(n))[i];
    }
  }

  /** Feeding a message leaves the remainder of the division by the generator. */
  lemma {:induction false} FeedIsRemainder(state: bits, m: bits)
    requires |state| == 32
    ensures Divides(Dividend(state, m), Quotient(state, m), Feed(state, m))
    decreases |m|
  {
    if m == [] {
      assert Dividend(state, m) == state;
      assert Xor(Zeros(32), Zeros(0) + state) == state;
    } else {
      var head := [state[0] != m[0]] + state[1..];
      var next := BitStep(head);
      FeedIsRemainder(next, m[1..]);
      DividendStep(state, m);
      PrependStep(head[0], Quotient(next, m[1..]), Feed(next, m[1..]), Dividend(next, m[1..]));
    }
  }

  lemma PrependStep(bit: bool, q: bits, r: bits, dividend: bits)
    requires Divides(dividend, q, r)
    ensures Divides(Xor(Top(bit, |q|), [false] + dividend), [bit] + q, r)
  {
    var top := Top(bit, |q|);
    assert ([bit] + q)[1..] == q;
    assert TimesGenerator([bit] + q) == Xor(top, [false] + TimesGenerator(q));
    assert Zeros(|q| + 1) + r == [false] + (Zeros(|q|) + r);
    hide TimesGenerator, Top;
    XorAssociates(top, [false] + TimesGenerator(q), [false] + (Zeros(|q|) + r));
    assert Xor([false] + TimesGenerator(q), [false] + (Zeros(|q|) + r)) == [false] + dividend;
  }

  lemma XorAssociates(a: bits, b: bits, c: bits)
    requires |a| == |b| == |c|
    ensures Xor(Xor(a, b), c) == Xor(a, Xor(b, c))
  {
  }

  /** Quotient and remainder are unique, so the register holds the remainder. */
  lemma {:induction false} RemainderIsUnique(dividend: bits, q: bits, r: bits, q': bits, r': bits)
    requires Divides(dividend, q, r) && Divides(dividend, q', r')
    ensures q == q' && r == r'
    decreases |q|
  {
    if q == [] {
      ShortDivision(dividend, r);
      ShortDivision(dividend, r');
    } else {
      LeadingBit(dividend, q, r);
      LeadingBit(dividend, q', r');
      var rest := Xor(Top(q[0], |q| - 1), dividend)[1..];
      RemainderIsUnique(rest, q[1..], r, q'[1..], r');
      assert q == [q[0]] + q[1..] && q' == [q'[0]] + q'[1..];
    }
  }

  lemma ShortDivision(dividend: bits, r: bits)
    requires Divides(dividend, [], r)
    ensures dividend == r
  {
    assert Xor(Zeros(32), Zeros(0) + r) == r;
  }

  /** The leading bit of the dividend is that of the quotient, and the rest divides on. */
  lemma LeadingBit(dividend: bits, q: bits, r: bits)
    requires q != [] && Divides(dividend, q, r)
    ensures dividend[0] == q[0]
    ensures Divides(Xor(Top(q[0], |q| - 1), dividend)[1..], q[1..], r)
  {
    hide Top, Xor, Zeros;
    var tail := Zeros(|q| - 1) + r;
    ZerosCons(|q| - 1, r);
    CancelFront(dividend, Top(q[0], |q| - 1), TimesGenerator(q[1..]), tail);
  }

  lemma ZerosCons(n: nat, r: bits)
    ensures Zeros(n + 1) + r == [false] + (Zeros(n) + r)
  {
  }

  lemma CancelFront(dividend: bits, top: bits, product: bits, tail: bits)
    requires |dividend| == |top| == |product| + 1 == |tail| + 1
    requires dividend == Xor(Xor(top, [false] + product), [false] + tail)
    ensures dividend[0] == top[0] && Xor(top, dividend)[1..] == Xor(product, tail)
  {
    var left, right := Xor(top, dividend)[1..], Xor(product, tail);
    forall i | 0 <= i < |product|
      ensures left[i] == right[i]
    {
      assert left[i] == Xor(top, dividend)[i + 1];
      assert ([false] + product)[i + 1] == product[i] && ([false] + tail)[i + 1] == tail[i];
    }
  }

  /**
   The checksum: with 32 ones added to its highest terms, the message times x^32 leaves a remainder
   modulo the Castagnoli polynomial, and the checksum is that remainder with every bit inverted.
   */
  lemma ChecksumIsRemainder(bytes: seq<byte>, q: bits, r: bits)
    requires |q| == 8 * |bytes|
    ensures Divides(Dividend(Ones(32), Message(bytes)), q, r)
            <==> q == Quotient(Ones(32), Message(bytes)) && r == Xor(Castagnoli(bytes), Ones(32))
  {
    hide Feed, Message, Extend, Divides, Dividend, Quotient, Xor, Ones;
    var m := Message(bytes);
    ExtendIsFeed(Ones(32), bytes);
    FeedIsRemainder(Ones(32), m);
    XorTwice(Feed(Ones(32), m), Ones(32));
    if Divides(Dividend(Ones(32), m), q, r) {
      RemainderIsUnique(Dividend(Ones(32), m), q, r, Quotient(Ones(32), m), Feed(Ones(32), m));
    }
  }

  lemma XorTwice(a: bits, b: bits)
    requires |a| == |b|
    ensures Xor(Xor(a, b), b) == a
  {
  }

  // ---- Errors the checksum detects ----

  /** Two different messages of one length that agree outside `n` consecutive bits. */
  ghost predicate DifferInWindow(p: bits, q: bits, i: nat, n: nat) {
    && |p| == |q| && i + n <= |p|
    && p != q
    && p[..i] == q[..i]
    && p[i + n..] == q[i + n..]
  }

  lemma BurstChangesRegister(state: bits, p: bits, q: bits, i: nat, n: nat)
    requires |state| == 32 && n <= 32 && DifferInWindow(p, q, i, n)
    ensures Feed(state, p) != Feed(state, q)
  {
    var before, after := p[..i], p[i + n..];
    var x, y := p[i..i + n], q[i..i + n];
    ThreeParts(p, i, n);
    ThreeParts(q, i, n);
    var s := Feed(state, before);
    FeedConcat(state, before, x + after);
    FeedConcat(state, before, y + after);
    FeedConcat(s, x, after);
    FeedConcat(s, y, after);
    if Feed(state, p) == Feed(state, q) {
      FeedInjective(Feed(s, x), Feed(s, y), after);
      WindowInjective(s, x, y);
      assert false;
    }
  }

  lemma ThreeParts(p: bits, i: nat, n: nat)
    requires i + n <= |p|
    ensures p == p[..i] + (p[i..i + n] + p[i + n..])
  {
    assert p[i..] == p[i..i + n] + p[i + n..];
    assert p == p[..i] + p[i..];
  }

  lemma WindowInjective(s: bits, x: bits, y: bits)
    requires |s| == 32 && |x| == |y| <= 32 && Feed(s, x) == Feed(s, y)
    ensures x == y
  {
    var wx, wy := x + Zeros(32 - |x|), y + Zeros(32 - |y|);
    FeedIsWord(s, x);
    FeedIsWord(s, y);
    StepsInjective(Xor(s, wx), Xor(s, wy), |x|);
    forall i | 0 <= i < |x|
      ensures x[i] == y[i]
    {
      assert Xor(s, wx)[i] == Xor(s, wy)[i];
    }
  }

  /** Every change confined to 32 consecutive bits changes the checksum. */
  lemma BurstChangesChecksum(p: seq<byte>, q: seq<byte>, i: nat, n: nat)
    requires n <= 32 && DifferInWindow(Message(p), Message(q), i, n)
    ensures Castagnoli(p) != Castagnoli(q)
  {
    hide Feed, Message, Extend;
    BurstChangesRegister(Ones(32), Message(p), Message(q), i, n);
    ExtendIsFeed(Ones(32), p);
    ExtendIsFeed(Ones(32), q);
    var a, b := Extend(Ones(32), p), Extend(Ones(32), q);
    var k :| 0 <= k < 32 && a[k] != b[k];
    assert Castagnoli(p)[k] != Castagnoli(q)[k];
  }

  /** Whether a bit string holds an odd number of ones. */
  function Odd(b: bits): bool {
    if b == [] then false else b[0] != Odd(b[1..])
  }

  lemma {:induction false} OddXor(a: bits, b: bits)
    requires |a| == |b|
    ensures Odd(Xor(a, b)) == (Odd(a) != Odd(b))
  {
    if a != [] {
      OddXor(a[1..], b[1..]);
      assert Xor(a, b)[1..] == Xor(a[1..], b[1..]);
    }
  }

  lemma {:induction false} OddConcat(a: bits, b: bits)
    ensures Odd(a + b) == (Odd(a) != Odd(b))
  {
    if a == [] {
      assert a + b == b;
    } else {
      assert (a + b)[1..] == a[1..] + b;
      OddConcat(a[1..], b);
    }
  }

  lemma OddStep(b: bits, i: nat)
    requires i < |b|
    ensures Odd(b[i..]) == (b[i] != Odd(b[i + 1..]))
    ensures !Odd(b[|b|..])
  {
    assert b[i..][1..] == b[i + 1..];
  }

  lemma ByteParity(b: bits, i: nat)
    requires i + 8 <= |b|
    ensures Odd(b[i..]) == ((((((((b[i] != b[i + 1]) != b[i + 2]) != b[i + 3]) != b[i + 4]) != b[i + 5]) != b[i + 6])
                            != b[i + 7]) != Odd(b[i + 8..]))
  {
    hide Odd;
    OddStep(b, i); OddStep(b, i + 1); OddStep(b, i + 2); OddStep(b, i + 3);
    OddStep(b, i + 4); OddStep(b, i + 5); OddStep(b, i + 6); OddStep(b, i + 7);
  }

  /** Besides its leading term the polynomial has an odd number of terms, so x + 1 divides it. */
  lemma PolynomialIsOdd()
    ensures Odd(POLY)
  {
    OddStep(POLY, 31);
    hide Odd;
    ByteParity(POLY, 24);
    ByteParity(POLY, 16);
    ByteParity(POLY, 8);
    ByteParity(POLY, 0);
    assert POLY[0..] == POLY;
  }

  lemma BitStepKeepsParity(state: bits)
    requires |state| == 32
    ensures Odd(BitStep(state)) == Odd(state)
  {
    var shifted := state[1..] + [false];
    OddConcat(state[1..], [false]);
    OddXor(shifted, POLY);
    PolynomialIsOdd();
  }

  lemma {:induction false} FeedParity(state: bits, m: bits)
    requires |state| == 32
    ensures Odd(Feed(state, m)) == (Odd(state) != Odd(m))
    decreases |m|
  {
    if m != [] {
      var head := [state[0] != m[0]] + state[1..];
      FeedParity(BitStep(head), m[1..]);
      BitStepKeepsParity(head);
      assert head[1..] == state[1..];
    }
  }

  lemma {:induction false} OddOnes(n: nat)
    ensures Odd(Ones(n)) == (n % 2 == 1)
  {
    if n > 0 {
      OddOnes(n - 1);
      assert Ones(n)[1..] == Ones(n - 1);
    }
  }

  /** The checksum carries the parity of the message. */
  lemma ChecksumParity(bytes: seq<byte>)
    ensures Odd(Castagnoli(bytes)) == Odd(Message(bytes))
  {
    ExtendIsFeed(Ones(32), bytes);
    FeedParity(Ones(32), Message(bytes));
    OddXor(Extend(Ones(32), bytes), Ones(32));
    OddOnes(32);
  }

  /** The number of positions at which two messages of one length differ. */
  function Distance(p: bits, q: bits): nat
    requires |p| == |q|
  {
    if p == [] then 0 else (if p[0] != q[0] then 1 else 0) + Distance(p[1..], q[1..])
  }

  lemma {:induction false} DistanceParity(p: bits, q: bits)
    requires |p| == |q|
    ensures (Distance(p, q) % 2 == 1) == (Odd(p) != Odd(q))
  {
    if p != [] {
      DistanceParity(p[1..], q[1..]);
    }
  }
}
