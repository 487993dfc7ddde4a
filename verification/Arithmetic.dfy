/** Powers, products and quotients shared by the codecs, the allocators and the evaluator. */
module Arithmetic {

  function Pow2(n: nat): (r: nat)
    ensures r > 0
  {
    if n == 0 then 1 else 2 * Pow2(n - 1)
  }

  function Pow256(n: nat): (r: nat)
    ensures r > 0
  {
    if n == 0 then 1 else 256 * Pow256(n - 1)
  }

  function Pow10(n: nat): (r: nat)
    ensures r > 0
  {
    if n == 0 then 1 else 10 * Pow10(n - 1)
  }

  /** Eight bits to the byte. */
  lemma {:induction false} BytePower(n: nat)
    ensures Pow2(8 * n) == Pow256(n)
  {
    if n > 0 {
      BytePower(n - 1);
      EightBits(8 * (n - 1));
    }
  }

  lemma EightBits(n: nat)
    ensures Pow2(n + 8) == 256 * Pow2(n)
  {
    assert Pow2(n + 2) == 4 * Pow2(n);
    assert Pow2(n + 4) == 4 * Pow2(n + 2);
    assert Pow2(n + 6) == 4 * Pow2(n + 4);
    assert Pow2(n + 8) == 4 * Pow2(n + 6);
  }

  lemma MultiplyOrdered(a: nat, b: nat, c: nat)
    requires a <= b
    ensures a * c <= b * c
  {
    assert b * c == a * c + (b - a) * c;
  }

  lemma Cancel(a: nat, b: nat, n: nat)
    requires a * n < b * n
    ensures a < b
  {
    if a >= b {
      MultiplyOrdered(b, a, n);
    }
  }

  lemma OneMore(a: nat, n: nat)
    ensures a * (n + 1) == a * n + a
  {
  }

  lemma QuotientAndRemainder(a: nat, b: nat)
    requires b > 0
    ensures a == a / b * b + a % b && a % b < b
  {
  }

  /** Quotient and remainder are determined by the equation they satisfy. */
  lemma DivisionIs(a: nat, b: nat, quotient: nat, remainder: nat)
    requires b > 0 && a == quotient * b + remainder && remainder < b
    ensures a / b == quotient && a % b == remainder
  {
    var q, r := a / b, a % b;
    assert a == q * b + r;
    if q < quotient {
      MultiplyOrdered(q + 1, quotient, b);
    } else if q > quotient {
      MultiplyOrdered(quotient + 1, q, b);
    }
  }

  lemma DivideTwice(value: nat, c: nat, d: nat)
    requires c > 0 && d > 0
    ensures c * d > 0 && value / c / d == value / (c * d)
  {
    var q, r, s := value / c / d, value / c % d, value % c;
    QuotientAndRemainder(value, c);
    QuotientAndRemainder(value / c, d);
    Nested(c, d, q, r, s);
    DivisionIs(value, c * d, q, c * r + s);
  }

  lemma Nested(c: nat, d: nat, q: nat, r: nat, s: nat)
    requires s < c && r < d
    ensures (q * d + r) * c + s == q * (c * d) + (c * r + s) && c * r + s < c * d
  {
    MultiplyOrdered(r + 1, d, c);
    calc {
      (q * d + r) * c + s;
      q * d * c + r * c + s;
    }
  }

  lemma QuotientBound(a: nat, b: nat)
    requires b > 0
    ensures a / b <= a
  {
    var q := a / b;
    assert a == q * b + a % b;
    MultiplyOrdered(1, b, q);
  }

  /** The division test recognises exactly the products that fit. */
  lemma ProductFits(count: nat, size: nat, limit: nat)
    ensures count == 0 || size <= limit / count <==> count * size <= limit
  {
    if count > 0 {
      var quotient := limit / count;
      if size <= quotient {
        MultiplyOrdered(size, quotient, count);
      } else {
        MultiplyOrdered(quotient + 1, size, count);
      }
    }
  }
}
