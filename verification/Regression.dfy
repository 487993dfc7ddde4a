/**
 Parts per million: reading a percentage, and dividing exactly where the product does not fit into
 a machine word. Every variable of the two loops is a `word`, so that no step wraps around.
 */
module Regression {
  import opened Arithmetic
  import opened Words

  type word = x: int | 0 <= x <= U64_MAX

  const MILLION: nat := 1000000
  const PERCENT: nat := 10000

  /** The sentinels for a baseline of zero: the largest and the smallest signed word. */
  const UNBOUNDED_REGRESSION: int := I64_MAX
  const UNBOUNDED_IMPROVEMENT: int := -(I64_MAX as int) - 1

  function Difference(baseline: nat, candidate: nat): nat {
    if candidate >= baseline then candidate - baseline else baseline - candidate
  }

  /** A ratio in parts per million, rounded down. */
  function Ppm(d: nat, b: nat): nat
    requires b > 0
  {
    d * MILLION / b
  }

  /** The size of the change in parts per million. */
  function Magnitude(baseline: nat, candidate: nat): nat
    requires baseline > 0
  {
    Ppm(Difference(baseline, candidate), baseline)
  }

  predicate IsRegression(baseline: nat, candidate: nat, higherIsBetter: bool) {
    if higherIsBetter then candidate < baseline else candidate > baseline
  }

  /** The exact change in parts per million, rounded towards zero. */
  function Change(baseline: nat, candidate: nat, higherIsBetter: bool): int {
    if baseline == 0 then
      if candidate == 0 then 0 else if higherIsBetter then UNBOUNDED_IMPROVEMENT else UNBOUNDED_REGRESSION
    else
      var magnitude: int := Magnitude(baseline, candidate);
      if IsRegression(baseline, candidate, higherIsBetter) then magnitude else -magnitude
  }

  /** So far `multiplier * f` divided by `b` is `quotient`, with a proper remainder. */
  ghost predicate Divided(multiplier: nat, f: nat, b: nat, quotient: nat, remainder: nat) {
    multiplier * f == quotient * b + remainder && remainder < b
  }

  lemma Expand(m: nat, d: nat, x: nat)
    requires d <= 2
    ensures (2 * m + d) * x == 2 * (m * x) + if d == 0 then 0 else if d == 1 then x else 2 * x
  {
    calc {
      (2 * m + d) * x;
      (2 * m) * x + d * x;
      2 * (m * x) + d * x;
    }
  }

  /** One step of the long division: the multiplier gains a bit, and the quotient with it. */
  lemma Doubling(multiplier: nat, isSet: bool, f: nat, b: nat, quotient: nat, remainder: nat, carry: nat, rest: nat)
    requires Divided(multiplier, f, b, quotient, remainder) && f < b && rest < b && carry <= 2
    requires 2 * remainder + (if isSet then f else 0)
            == (if carry == 0 then 0 else if carry == 1 then b else 2 * b) + rest
    ensures var next := 2 * multiplier + if isSet then 1 else 0;
            Divided(next, f, b, 2 * quotient + carry, rest) && 2 * quotient + carry <= next
  {
    var bit := if isSet then 1 else 0;
    Expand(multiplier, bit, f);
    Expand(quotient, carry, b);
    SmallQuotient(2 * multiplier + bit, f, b, 2 * quotient + carry, rest);
  }

  /** The quotient stays below the multiplier, because a proper fraction is multiplied. */
  lemma SmallQuotient(multiplier: nat, f: nat, b: nat, quotient: nat, remainder: nat)
    requires f < b && multiplier * f == quotient * b + remainder
    ensures quotient <= multiplier
  {
    MultiplyOrdered(f, b, multiplier);
    if quotient > multiplier {
      MultiplyOrdered(multiplier + 1, quotient, b);
    }
  }

  /** Twice the remainder, plus the fraction if the bit is set, reduced by the divisor. */
  method Reduce(remainder: word, f: word, b: word, isSet: bool) returns (carry: word, rest: word)
    requires remainder < b && f < b
    ensures rest < b && carry <= 2
    ensures 2 * remainder + (if isSet then f else 0)
            == (if carry == 0 then 0 else if carry == 1 then b else 2 * b) + rest
  {
    carry, rest := 0, remainder;
    var gap: word := b - rest;
    if rest >= gap {
      rest := rest - gap;
      carry := 1;
    } else {
      rest := rest + rest;
    }
    if isSet {
      var room: word := b - f;
      if rest >= room {
        rest := rest - room;
        carry := carry + 1;
      } else {
        rest := rest + f;
      }
    }
  }

  /** Multiplying a proper fraction f / b by a million, bit by bit from the top. */
  method Fraction(f: word, b: word) returns (fractional: word)
    requires f < b
    ensures fractional == Ppm(f, b) && fractional <= MILLION
  {
    hide Divided, Upper, Ppm;
    var remainder: word, bit: word := 0, 524288;
    fractional := 0;
    ghost var multiplier: nat := 0;
    Begin(f, b);
    while bit != 0
      invariant Divided(multiplier, f, b, fractional, remainder)
      invariant remainder < b && fractional <= multiplier <= MILLION
      invariant if bit == 0 then multiplier == MILLION else Upper(multiplier, bit)
      decreases bit
    {
      var isSet := MILLION / bit % 2 == 1;
      var carry, rest := Reduce(remainder, f, b, isSet);
      Doubling(multiplier, isSet, f, b, fractional, remainder, carry, rest);
      NextBit(multiplier, bit);
      multiplier := 2 * multiplier + if isSet then 1 else 0;
      if fractional > (U64_MAX - carry) / 2 {
        assert false;
      }
      fractional, remainder := fractional * 2 + carry, rest;
      bit := bit / 2;
    }
    Finish(f, b, fractional, remainder);
  }

  lemma Begin(f: nat, b: nat)
    requires f < b
    ensures Divided(0, f, b, 0, 0) && Upper(0, 524288)
  {
    BytePower(2);
    assert Pow2(18) == 4 * Pow2(16);
    assert Pow2(19) == 524288;
  }

  lemma Finish(f: nat, b: nat, quotient: nat, remainder: nat)
    requires b > 0 && Divided(MILLION, f, b, quotient, remainder)
    ensures quotient == Ppm(f, b)
  {
    DivisionIs(f * MILLION, b, quotient, remainder);
  }

  /** The bits of a million above `bit`, a power of two. */
  ghost predicate Upper(multiplier: nat, bit: nat) {
    bit > 0 && multiplier == MILLION / (2 * bit) && exists k: nat :: k < 20 && bit == Pow2(k)
  }

  lemma NextBit(multiplier: nat, bit: nat)
    requires Upper(multiplier, bit)
    ensures var next := 2 * multiplier + if MILLION / bit % 2 == 1 then 1 else 0;
            next <= MILLION && if bit == 1 then next == MILLION else bit / 2 > 0 && Upper(next, bit / 2)
  {
    Halves(MILLION, bit);
    var k: nat :| k < 20 && bit == Pow2(k);
    if k > 0 {
      assert bit / 2 == Pow2(k - 1) && 2 * (bit / 2) == bit;
    }
  }

  lemma Halves(n: nat, bit: nat)
    requires bit > 0
    ensures n / bit == 2 * (n / (2 * bit)) + n / bit % 2 && n / bit <= n
  {
    var q, r := n / bit, n % bit;
    assert n == q * bit + r;
    var h := q / 2;
    calc {
      n;
      (2 * h + q % 2) * bit + r;
      h * (2 * bit) + ((q % 2) * bit + r);
    }
    DivisionIs(n, 2 * bit, h, (q % 2) * bit + r);
    MultiplyOrdered(1, bit, q);
  }

  ghost predicate Quotient(a: nat, b: nat, quotient: nat, remainder: nat) {
    b > 0 && quotient == a / b && remainder == a % b
  }

  method Divide(a: word, b: word) returns (quotient: word, remainder: word)
    requires b > 0
    ensures Quotient(a, b, quotient, remainder) && remainder < b
  {
    assert a / b <= a by {
      assert a == a / b * b + a % b;
      MultiplyOrdered(1, b, a / b);
    }
    quotient, remainder := a / b, a % b;
  }

  /** The signed change in parts per million, or nothing when its magnitude does not fit. */
  method RegressionPpm(baseline: word, candidate: word, higherIsBetter: bool) returns (r: Option<int>)
    ensures baseline != 0 ==> (r.None? <==> Magnitude(baseline, candidate) > I64_MAX)
    ensures r.Some? ==> r.value == Change(baseline, candidate, higherIsBetter)
    ensures baseline == 0 ==>
              r == Some(if candidate == 0 then 0
                        else if higherIsBetter then -0x8000_0000_0000_0000 else 0x7FFF_FFFF_FFFF_FFFF)
    ensures baseline != 0 && r.Some? ==>
              TowardsZero(r.value, if higherIsBetter then baseline - candidate else candidate - baseline, baseline)
  {
    hide Magnitude, Change, Ppm, Quotient, TowardsZero;
    if baseline != 0 {
      ChangeMeans(baseline, candidate, higherIsBetter);
    }
    if baseline == 0 {
      ZeroBaseline(candidate, higherIsBetter);
      if candidate == 0 {
        return Some(0);
      }
      return Some(if higherIsBetter then UNBOUNDED_IMPROVEMENT else UNBOUNDED_REGRESSION);
    }
    var regression := if higherIsBetter then candidate < baseline else candidate > baseline;
    var difference: word := if candidate >= baseline then candidate - baseline else baseline - candidate;
    var whole, source := Divide(difference, baseline);
    var fractional := Fraction(source, baseline);
    Exact(baseline, candidate, higherIsBetter, difference, whole, source, fractional);
    if whole > (I64_MAX - fractional) / MILLION {
      return None;
    }
    var magnitude: word := whole * MILLION + fractional;
    r := Some(if regression then magnitude else -(magnitude as int));
  }

  /** The quotient of worse * 1000000 by the baseline, rounded towards zero. */
  predicate TowardsZero(x: int, worse: int, baseline: nat) {
    && (worse >= 0 ==> x >= 0 && x * baseline <= worse * 1000000 < (x + 1) * baseline)
    && (worse <= 0 ==> x <= 0 && -x * baseline <= -worse * 1000000 < (-x + 1) * baseline)
  }

  lemma ChangeMeans(baseline: nat, candidate: nat, higherIsBetter: bool)
    requires baseline > 0
    ensures TowardsZero(Change(baseline, candidate, higherIsBetter),
                        if higherIsBetter then baseline - candidate else candidate - baseline, baseline)
  {
    var d := Difference(baseline, candidate);
    var q := d * MILLION / baseline;
    QuotientAndRemainder(d * MILLION, baseline);
    assert (q + 1) * baseline == q * baseline + baseline;
  }

  lemma ZeroBaseline(candidate: nat, higherIsBetter: bool)
    ensures Change(0, candidate, higherIsBetter)
            == if candidate == 0 then 0 else if higherIsBetter then UNBOUNDED_IMPROVEMENT else UNBOUNDED_REGRESSION
  {
  }

  lemma Exact(baseline: nat, candidate: nat, higherIsBetter: bool, difference: nat, whole: nat, source: nat,
              fractional: nat)
    requires baseline > 0 && Quotient(difference, baseline, whole, source)
    requires fractional == Ppm(source, baseline)
    requires difference == if candidate >= baseline then candidate - baseline else baseline - candidate
    ensures Magnitude(baseline, candidate) == whole * MILLION + fractional
    ensures Change(baseline, candidate, higherIsBetter)
            == if (if higherIsBetter then candidate < baseline else candidate > baseline)
               then whole * MILLION + fractional else -((whole * MILLION + fractional) as int)
  {
    WholeAndFraction(difference, baseline, whole, source);
    assert Difference(baseline, candidate) == difference;
  }

  lemma WholeAndFraction(difference: nat, b: nat, whole: nat, source: nat)
    requires b > 0 && whole == difference / b && source == difference % b
    ensures difference * MILLION / b == whole * MILLION + source * MILLION / b
  {
    var f := source * MILLION;
    var q, r := f / b, f % b;
    QuotientAndRemainder(difference, b);
    QuotientAndRemainder(f, b);
    Spread(whole, b, source, q, r);
    DivisionIs(difference * MILLION, b, whole * MILLION + q, r);
  }

  lemma Spread(whole: nat, b: nat, source: nat, q: nat, r: nat)
    requires source * MILLION == q * b + r
    ensures (whole * b + source) * MILLION == (whole * MILLION + q) * b + r
  {
  }

  /** A change for the worse is positive, one for the better is not. */
  lemma ChangeSign(baseline: nat, candidate: nat, higherIsBetter: bool)
    ensures !IsRegression(baseline, candidate, higherIsBetter) ==> Change(baseline, candidate, higherIsBetter) <= 0
  {
  }

  // ---- Reading a percentage ----

  predicate Digit(c: char) {
    '0' <= c <= '9'
  }

  function DigitValue(c: char): (r: nat)
    ensures Digit(c) ==> r <= 9
  {
    if Digit(c) then (c as int) - ('0' as int) else 0
  }

  function Decimal(s: string): nat {
    if s == "" then 0 else 10 * Decimal(s[..|s| - 1]) + DigitValue(s[|s| - 1])
  }

  function Digits(s: string): (r: nat)
    ensures r <= |s| && (forall i :: 0 <= i < r ==> Digit(s[i])) && (r < |s| ==> !Digit(s[r]))
  {
    if s != "" && Digit(s[0]) then 1 + Digits(s[1..]) else 0
  }

  /** A number with n more zeros at its end. */
  function Padded(x: nat, n: nat): nat
    decreases n
  {
    if n == 0 then x else Padded(10 * x, n - 1)
  }

  /** Digits, and possibly a point with one to four more: the percentage in parts per million. */
  function Percentage(input: string): Option<nat> {
    var n := Digits(input);
    if n == 0 then None
    else if n == |input| then Some(Decimal(input) * PERCENT)
    else
      var fraction := input[n + 1..];
      if input[n] == '.' && 1 <= |fraction| <= 4 && Digits(fraction) == |fraction|
      then Some(Decimal(input[..n]) * PERCENT + Padded(Decimal(fraction), 4 - |fraction|))
      else None
  }

  lemma NoDigits(s: string)
    ensures Decimal(s[..0]) == 0
  {
  }

  lemma DecimalStep(s: string, k: nat)
    requires k < |s|
    ensures Decimal(s[..k + 1]) == 10 * Decimal(s[..k]) + DigitValue(s[k])
  {
    assert s[..k + 1][..k] == s[..k];
  }

  lemma {:induction false} DecimalGrows(s: string, k: nat)
    requires k <= |s|
    ensures Decimal(s[..k]) <= Decimal(s)
    decreases |s| - k
  {
    if k < |s| {
      DecimalStep(s, k);
      DecimalGrows(s, k + 1);
    } else {
      assert s[..k] == s;
    }
  }

  lemma {:induction false} DigitsAre(s: string, k: nat)
    requires k <= |s| && (forall i :: 0 <= i < k ==> Digit(s[i])) && (k < |s| ==> !Digit(s[k]))
    ensures Digits(s) == k
  {
    if k > 0 {
      DigitsAre(s[1..], k - 1);
    }
  }

  lemma {:induction false} PaddedIs(x: nat, n: nat)
    ensures Padded(x, n) == x * Pow10(n)
    decreases n
  {
    if n > 0 {
      PaddedIs(10 * x, n - 1);
      assert 10 * x * Pow10(n - 1) == x * (10 * Pow10(n - 1));
    }
  }

  /** The value of a percentage: the whole part counts 10^4, the last of k digits of the fraction 10^(4 - k). */
  lemma PercentageMeans(input: string, n: nat, k: nat)
    requires 0 < n == Digits(input) && k <= 4 && |input| == if k == 0 then n else n + 1 + k
    requires k > 0 ==> input[n] == '.' && Digits(input[n + 1..]) == k
    ensures Percentage(input)
            == Some(Decimal(input[..n]) * Pow10(4) + if k == 0 then 0 else Decimal(input[n + 1..]) * Pow10(4 - k))
  {
    hide Decimal, Padded;
    assert Pow10(4) == 10000;
    if k == 0 {
      assert input[..n] == input;
    } else {
      PaddedIs(Decimal(input[n + 1..]), 4 - k);
    }
  }

  /** So many digits, possibly followed by a point and one to four more. */
  ghost predicate FormAt(input: string, n: nat) {
    && 0 < n <= |input| && (forall i :: 0 <= i < n ==> '0' <= input[i] <= '9')
    && (n < |input| ==>
          && input[n] == '.' && n + 2 <= |input| <= n + 5
          && forall i :: n < i < |input| ==> '0' <= input[i] <= '9')
  }

  lemma FormFound(input: string)
    requires Percentage(input).Some?
    ensures FormAt(input, Digits(input))
  {
    hide Decimal, Padded, Digits;
    var n := Digits(input);
    forall i | n < i < |input|
      ensures '0' <= input[i] <= '9'
    {
      assert input[i] == input[n + 1..][i - n - 1];
    }
  }

  lemma FormReads(input: string, n: nat)
    requires FormAt(input, n)
    ensures Percentage(input).Some?
  {
    DigitsAre(input, n);
    if n < |input| {
      DigitsAre(input[n + 1..], |input| - n - 1);
    }
    hide Decimal, Padded, Digits;
  }

  /** A text is a percentage exactly when it has this form. */
  lemma FormExactly(input: string)
    ensures Percentage(input).Some? <==> exists n: nat :: FormAt(input, n)
  {
    hide Percentage, FormAt;
    if Percentage(input).Some? {
      FormFound(input);
    }
    if n: nat :| FormAt(input, n) {
      FormReads(input, n);
    }
  }

  // ---- Percentages written out ----

  function Character(digit: nat): (c: char)
    requires digit <= 9
    ensures Digit(c) && DigitValue(c) == digit
  {
    ('0' as int + digit) as char
  }

  /** The decimal text of a number, by repeated division. */
  function Text(n: nat): string {
    if n < 10 then [Character(n)] else Text(n / 10) + [Character(n % 10)]
  }

  /** A number below 10000 with its leading zeros. */
  function Places(f: nat): string
    requires f < 10000
  {
    [Character(f / 1000), Character(f / 100 % 10), Character(f / 10 % 10), Character(f % 10)]
  }

  /** Parts per million as a percentage with four places. */
  function Shown(v: nat): string {
    Text(v / 10000) + "." + Places(v % 10000)
  }

  lemma {:induction false} TextReads(n: nat)
    ensures Text(n) != "" && Decimal(Text(n)) == n && forall i :: 0 <= i < |Text(n)| ==> Digit(Text(n)[i])
  {
    var s := Text(n);
    if n < 10 {
      assert s[..0] == "";
    } else {
      TextReads(n / 10);
      assert s[..|s| - 1] == Text(n / 10);
    }
  }

  /** A number written without a point is that many percent. */
  lemma WholeReads(n: nat)
    ensures Percentage(Text(n)) == Some(n * 10000)
  {
    hide Text, Decimal;
    TextReads(n);
    DigitsAre(Text(n), |Text(n)|);
  }

  lemma FourDigits(s: string)
    requires |s| == 4
    ensures Decimal(s)
            == 1000 * DigitValue(s[0]) + 100 * DigitValue(s[1]) + 10 * DigitValue(s[2]) + DigitValue(s[3])
  {
    hide Decimal, DigitValue;
    NoDigits(s);
    DecimalStep(s, 0);
    DecimalStep(s, 1);
    DecimalStep(s, 2);
    DecimalStep(s, 3);
    assert s[..4] == s;
  }

  lemma PlacesRead(f: nat)
    requires f < 10000
    ensures |Places(f)| == 4 && Decimal(Places(f)) == f && forall i :: 0 <= i < 4 ==> Digit(Places(f)[i])
  {
    hide Decimal, DigitValue, Digit;
    FourDigits(Places(f));
    PlaceValues(f);
  }

  lemma PlaceValues(f: nat)
    requires f < 10000
    ensures 1000 * (f / 1000) + 100 * (f / 100 % 10) + 10 * (f / 10 % 10) + f % 10 == f
  {
    QuotientAndRemainder(f, 10);
    DivideTwice(f, 10, 10);
    QuotientAndRemainder(f / 10, 10);
    DivideTwice(f, 100, 10);
    QuotientAndRemainder(f / 100, 10);
  }

  /** Reading a percentage written with four places returns the parts per million it was written from. */
  lemma ShownReads(v: nat)
    ensures Percentage(Shown(v)) == Some(v)
  {
    hide Text, Places, Decimal, DigitValue, Digit, Digits, Percentage;
    var whole, fraction, s := Text(v / 10000), Places(v % 10000), Shown(v);
    TextReads(v / 10000);
    PlacesRead(v % 10000);
    assert s[..|whole|] == whole && s[|whole| + 1..] == fraction && s[|whole|] == '.';
    ShownDigits(whole, fraction);
    PercentageMeans(s, |whole|, 4);
    assert Pow10(4) == 10000;
  }

  lemma ShownDigits(whole: string, fraction: string)
    requires forall i :: 0 <= i < |whole| ==> Digit(whole[i])
    requires forall i :: 0 <= i < |fraction| ==> Digit(fraction[i])
    ensures Digits(whole + "." + fraction) == |whole| && Digits(fraction) == |fraction|
  {
    DigitsAre(whole + "." + fraction, |whole|);
    DigitsAre(fraction, |fraction|);
  }

  /** The run of digits in front; stops early once its value cannot be used any more. */
  method ReadWhole(input: string) returns (cursor: nat, whole: word, ok: bool)
    ensures cursor <= |input|
    ensures ok ==> cursor == Digits(input) && whole == Decimal(input[..cursor])
    ensures !ok ==> Decimal(input[..Digits(input)]) * PERCENT > U64_MAX
  {
    cursor, whole := 0, 0;
    while cursor < |input| && Digit(input[cursor])
      invariant cursor <= |input| && whole == Decimal(input[..cursor])
      invariant forall i :: 0 <= i < cursor ==> Digit(input[i])
    {
      if whole > (U64_MAX - 9) / 10 {
        ghost var run := input[..Digits(input)];
        assert cursor < |run| by {
          if Digits(input) <= cursor {
            assert false;
          }
        }
        DecimalGrows(run, cursor);
        assert run[..cursor] == input[..cursor];
        return cursor, whole, false;
      }
      DecimalStep(input, cursor);
      whole := whole * 10 + DigitValue(input[cursor]);
      cursor := cursor + 1;
    }
    DigitsAre(input, cursor);
    ok := true;
  }

  /** Up to four digits, padded to four. */
  method ReadFraction(input: string) returns (fraction: word, ok: bool)
    ensures ok <==> 1 <= |input| <= 4 && Digits(input) == |input|
    ensures ok ==> fraction == Padded(Decimal(input), 4 - |input|)
    ensures fraction < PERCENT
  {
    hide Padded, Decimal;
    NoDigits(input);
    fraction := 0;
    var digits := 0;
    while digits < |input| && Digit(input[digits]) && digits < 4
      invariant digits <= |input| && digits <= 4 && fraction == Decimal(input[..digits])
      invariant fraction < Bound(digits)
      invariant forall i :: 0 <= i < digits ==> Digit(input[i])
    {
      DecimalStep(input, digits);
      fraction := fraction * 10 + DigitValue(input[digits]);
      digits := digits + 1;
    }
    if digits == 0 || digits != |input| {
      return 0, false;
    }
    DigitsAre(input, digits);
    assert input[..digits] == input;
    fraction := Pad(fraction, digits);
    ok := true;
  }

  function Bound(digits: nat): nat {
    match digits
    case 0 => 1
    case 1 => 10
    case 2 => 100
    case 3 => 1000
    case _ => PERCENT
  }

  method Pad(x: word, digits: nat) returns (fraction: word)
    requires digits <= 4 && x < Bound(digits)
    ensures fraction == Padded(x, 4 - digits) && fraction < PERCENT
  {
    fraction := x;
    var padded := digits;
    while padded < 4
      invariant digits <= padded <= 4 && Padded(fraction, 4 - padded) == Padded(x, 4 - digits)
      invariant fraction < Bound(padded)
    {
      fraction := fraction * 10;
      padded := padded + 1;
    }
  }

  /** Reads exactly the percentages whose value fits a machine word. */
  method ParsePercentPpm(input: string) returns (r: Option<word>)
    ensures r == match Percentage(input) case Some(v) => if v <= U64_MAX then Some(v) else None case None => None
    ensures r.Some? ==> exists n: nat :: FormAt(input, n)
    ensures r.None? && (exists n: nat :: FormAt(input, n)) ==>
              Percentage(input).Some? && Percentage(input).value > U64_MAX
    ensures forall v: word :: input == Shown(v) ==> r == Some(v)
    ensures forall v: word :: input == Text(v) ==> r == if v * 10000 <= U64_MAX then Some(v * 10000) else None
  {
    hide Shown, Text, FormAt;
    FormExactly(input);
    forall v: word | input == Shown(v)
      ensures Percentage(input) == Some(v)
    {
      ShownReads(v);
    }
    forall v: word | input == Text(v)
      ensures Percentage(input) == Some(v * 10000)
    {
      WholeReads(v);
    }
    hide Percentage;
    r := ReadPercentage(input);
  }

  method ReadPercentage(input: string) returns (r: Option<word>)
    ensures r == match Percentage(input) case Some(v) => if v <= U64_MAX then Some(v) else None case None => None
  {
    if input == "" {
      return None;
    }
    hide Decimal, Padded;
    var cursor, whole, ok := ReadWhole(input);
    assert Digits(input) == |input| ==> input[..Digits(input)] == input;
    if !ok {
      return None;
    }
    if cursor == 0 {
      return None;
    }
    var fraction: word := 0;
    if cursor < |input| {
      if input[cursor] != '.' {
        return None;
      }
      fraction, ok := ReadFraction(input[cursor + 1..]);
      if !ok {
        return None;
      }
    }
    assert cursor == |input| ==> input[..cursor] == input;
    if whole > (U64_MAX - fraction) / PERCENT {
      return None;
    }
    r := Some(whole * PERCENT + fraction);
  }
}
