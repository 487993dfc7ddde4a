/**
 Machine words as the sequence of their bits, least significant first, so that `word >> 1` drops
 the first bit and `word & 1` is that bit.
 */
module BitStrings {
  import opened Arithmetic

  type bits = seq<bool>

  /** The `n` low bits of a number. */
  function Bits(value: nat, n: nat): (r: bits)
    ensures |r| == n
    decreases n
  {
    if n == 0 then [] else [value % 2 == 1] + Bits(value / 2, n - 1)
  }

  /** The number a bit string denotes. */
  function Value(b: bits): nat {
    if b == [] then 0 else (if b[0] then 1 else 0) + 2 * Value(b[1..])
  }

  function Zeros(n: nat): (r: bits)
    ensures |r| == n
  {
    seq(n, i => false)
  }

  function Ones(n: nat): (r: bits)
    ensures |r| == n
  {
    seq(n, i => true)
  }

  function Xor(a: bits, b: bits): (r: bits)
    requires |a| == |b|
    ensures |r| == |a|
  {
    seq(|a|, i requires 0 <= i < |a| => a[i] != b[i])
  }

  function And(a: bits, b: bits): (r: bits)
    requires |a| == |b|
    ensures |r| == |a|
  {
    seq(|a|, i requires 0 <= i < |a| => a[i] && b[i])
  }

  lemma {:induction false} ValueBound(b: bits)
    ensures Value(b) < Pow2(|b|)
  {
    if b != [] {
      ValueBound(b[1..]);
    }
  }

  lemma {:induction false} BitsOfValue(b: bits)
    ensures Bits(Value(b), |b|) == b
  {
    if b != [] {
      BitsOfValue(b[1..]);
    }
  }

  lemma {:induction false} ValueInjective(a: bits, b: bits)
    requires |a| == |b| && Value(a) == Value(b)
    ensures a == b
  {
    if a != [] {
      ValueInjective(a[1..], b[1..]);
      assert a == [a[0]] + a[1..] && b == [b[0]] + b[1..];
    }
  }

  lemma {:induction false} BitsInjective(v: nat, w: nat, n: nat)
    requires v < Pow2(n) && w < Pow2(n) && Bits(v, n) == Bits(w, n)
    ensures v == w
    decreases n
  {
    if n > 0 {
      assert Bits(v, n)[0] == Bits(w, n)[0];
      assert Bits(v, n)[1..] == Bits(v / 2, n - 1) && Bits(w, n)[1..] == Bits(w / 2, n - 1);
      BitsInjective(v / 2, w / 2, n - 1);
    }
  }

  lemma DoubleProduct(p: nat, v: nat)
    ensures (2 * p) * v == 2 * (p * v)
  {
  }

  lemma {:induction false} ValueConcat(a: bits, b: bits)
    ensures Value(a + b) == Value(a) + Pow2(|a|) * Value(b)
  {
    if a == [] {
      assert a + b == b;
    } else {
      ValueConcat(a[1..], b);
      assert (a + b)[1..] == a[1..] + b;
      assert Value(a + b) == (if a[0] then 1 else 0) + 2 * Value(a[1..] + b);
      DoubleProduct(Pow2(|a| - 1), Value(b));
    }
  }

  lemma {:induction false} ZeroBits(a: nat, n: nat)
    requires a < Pow2(n)
    ensures Bits(a, n) == Zeros(n) <==> a == 0
    decreases n
  {
    if n > 0 {
      ZeroBits(a / 2, n - 1);
      ConsZeros(a % 2 == 1, Bits(a / 2, n - 1));
    }
  }

  lemma ConsZeros(head: bool, rest: bits)
    ensures [head] + rest == Zeros(|rest| + 1) <==> !head && rest == Zeros(|rest|)
  {
    var all := [head] + rest;
    assert all[0] == head && all[1..] == rest;
    assert Zeros(|rest| + 1)[0] == false && Zeros(|rest| + 1)[1..] == Zeros(|rest|);
    assert Zeros(|rest| + 1) == [false] + Zeros(|rest|);
  }

  // ---- Powers of two ----

  predicate PowerOfTwo(a: nat) {
    a == 1 || (a > 1 && a % 2 == 0 && PowerOfTwo(a / 2))
  }

  /** What the halving test accepts are the powers of two. */
  lemma PowersOfTwo(a: nat)
    ensures PowerOfTwo(a) <==> exists k: nat :: a == Pow2(k)
  {
    if PowerOfTwo(a) {
      var k := Exponent(a);
    }
    if k: nat :| a == Pow2(k) {
      PowIsPower(k);
    }
  }

  lemma {:induction false} Exponent(a: nat) returns (k: nat)
    requires PowerOfTwo(a)
    ensures a == Pow2(k)
  {
    k := 0;
    if a > 1 {
      var half := Exponent(a / 2);
      k := half + 1;
    }
  }

  lemma {:induction false} PowIsPower(k: nat)
    ensures PowerOfTwo(Pow2(k))
  {
    if k > 0 {
      PowIsPower(k - 1);
    }
  }

  lemma HalfPower(a: nat)
    requires a > 0
    ensures PowerOfTwo(a) <==> a == 1 || (a % 2 == 0 && PowerOfTwo(a / 2))
  {
  }

  lemma PositivePower(a: nat)
    ensures PowerOfTwo(a) ==> a > 0
  {
  }

  lemma AndCons(x: bool, a: bits, y: bool, b: bits)
    requires |a| == |b|
    ensures And([x] + a, [y] + b) == [x && y] + And(a, b)
  {
  }

  lemma AndSelf(a: bits)
    ensures And(a, a) == a
  {
  }

  /** The test `(a & (a - 1)) == 0` on an n-bit word recognises exactly the powers of two. */
  lemma {:induction false} SingleBitTest(a: nat, n: nat)
    requires 0 < a < Pow2(n)
    ensures And(Bits(a, n), Bits(a - 1, n)) == Zeros(n) <==> PowerOfTwo(a)
    decreases n
  {
    hide PowerOfTwo, And, Zeros;
    HalfPower(a);
    var x, y := Bits(a / 2, n - 1), Bits((a - 1) / 2, n - 1);
    AndCons(a % 2 == 1, x, (a - 1) % 2 == 1, y);
    ConsZeros(a % 2 == 1 && (a - 1) % 2 == 1, And(x, y));
    if a % 2 == 0 {
      assert (a - 1) / 2 == a / 2 - 1;
      SingleBitTest(a / 2, n - 1);
    } else {
      assert (a - 1) / 2 == a / 2;
      AndSelf(x);
      ZeroBits(a / 2, n - 1);
    }
  }
}
