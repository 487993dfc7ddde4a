/**
 The bootstrap verdict of the benchmark evaluator. The random numbers come from an arbitrary
 generator: a function from its state to the next state and a number.
 */
module Bootstrap {
  import opened Arithmetic
  import opened Words
  import opened Regression
  import Sequences

  const MAXIMUM_SAMPLES: nat := 1000
  const RESAMPLES: nat := 10000
  const LOWER: nat := (RESAMPLES * 25 + 999) / 1000 - 1
  const UPPER: nat := (RESAMPLES * 975 + 999) / 1000 - 1

  type generator = word -> (word, word)

  datatype Series = Series(available: bool, values: seq<word>)

  datatype Outcome<+T> =
    | Success(value: T) | InvalidSamples | ZeroBaselineUndefined | ArithmeticOverflow | ThresholdOverflow

  // ---- Drawing with replacement ----

  function Drawn(values: seq<word>, number: word): word
    requires values != []
  {
    values[number % |values|]
  }

  /** The values that `k` draws pick. */
  function Picks(values: seq<word>, next: generator, state: word, k: nat): (r: seq<word>)
    requires values != []
    ensures |r| == k
    decreases k
  {
    if k == 0 then []
    else
      var (after, number) := next(state);
      [Drawn(values, number)] + Picks(values, next, after, k - 1)
  }

  function After(next: generator, state: word, k: nat): word
    decreases k
  {
    if k == 0 then state else After(next, next(state).0, k - 1)
  }

  lemma {:induction false} PicksStep(values: seq<word>, next: generator, state: word, k: nat)
    requires values != []
    ensures Picks(values, next, state, k + 1)
            == Picks(values, next, state, k) + [Drawn(values, next(After(next, state, k)).1)]
    ensures After(next, state, k + 1) == next(After(next, state, k)).0
    decreases k
  {
    hide Drawn;
    if k > 0 {
      var (after, number) := next(state);
      var first, last := [Drawn(values, number)], [Drawn(values, next(After(next, after, k - 1)).1)];
      PicksStep(values, next, after, k - 1);
      Sequences.Regroup(first, Picks(values, next, after, k - 1), last);
    }
  }

  /** The i-th value is the sample that the i-th random number points at. */
  ghost predicate AreDraws(values: seq<word>, next: generator, state: word, picks: seq<word>)
    requires values != []
  {
    forall i :: 0 <= i < |picks| ==> picks[i] == values[next(After(next, state, i)).1 % |values|]
  }

  lemma {:induction false} PicksAreDraws(values: seq<word>, next: generator, state: word, k: nat)
    requires values != []
    ensures AreDraws(values, next, state, Picks(values, next, state, k))
    decreases k
  {
    hide After, Picks;
    if k == 0 {
      assert |Picks(values, next, state, k)| == 0;
    } else {
      PicksStep(values, next, state, k - 1);
      PicksAreDraws(values, next, state, k - 1);
    }
  }

  lemma {:induction false} PicksAreSamples(values: seq<word>, next: generator, state: word, k: nat)
    requires values != []
    ensures forall i :: 0 <= i < k ==> Picks(values, next, state, k)[i] in values
    decreases k
  {
    if k > 0 {
      PicksAreSamples(values, next, next(state).0, k - 1);
    }
  }

  function Sum(s: seq<word>): nat {
    if s == [] then 0 else Sum(s[..|s| - 1]) + s[|s| - 1]
  }

  function Largest(s: seq<word>): word {
    if s == [] then 0
    else if s[|s| - 1] > Largest(s[..|s| - 1]) then s[|s| - 1] else Largest(s[..|s| - 1])
  }

  lemma SumStep(s: seq<word>, x: word)
    ensures Sum(s + [x]) == Sum(s) + x
    ensures Largest(s + [x]) == if x > Largest(s) then x else Largest(s)
  {
    assert (s + [x])[..|s|] == s;
  }

  lemma {:induction false} LargestIs(s: seq<word>)
    ensures forall x :: x in s ==> x <= Largest(s)
    ensures s != [] ==> Largest(s) in s
  {
    if s != [] {
      var init, last := s[..|s| - 1], s[|s| - 1];
      LargestIs(init);
      forall x | x in s
        ensures x in init || x == last
      {
        var i :| 0 <= i < |s| && s[i] == x;
        assert i < |init| ==> init[i] == x;
      }
      assert s[|s| - 1] in s && forall x :: x in init ==> x in s;
    }
  }

  lemma {:induction false} SumConcat(a: seq<word>, b: seq<word>)
    ensures Sum(a + b) == Sum(a) + Sum(b)
  {
    if b == [] {
      assert a + b == a;
    } else {
      SumConcat(a, b[..|b| - 1]);
      assert (a + b)[..|a + b| - 1] == a + b[..|b| - 1];
    }
  }

  /** A resampled statistic: the mean, or the largest value; nothing if a sum does not fit a word. */
  function Statistic(values: seq<word>, largest: bool, next: generator, state: word): Option<word> {
    if values == [] || |values| > MAXIMUM_SAMPLES then None
    else
      var picks := Picks(values, next, state, |values|);
      if largest then Some(Largest(picks))
      else if Sum(picks) > U64_MAX then None
      else Some(Mean(Sum(picks), |values|))
  }

  function Mean(sum: word, n: nat): word
    requires n > 0
  {
    QuotientBound(sum, n);
    sum / n
  }

  /** The mean of n values, rounded down. */
  predicate IsMean(mean: nat, n: nat, sum: nat) {
    mean * n <= sum < (mean + 1) * n
  }

  /** Sums only grow, so an overflow on the way is an overflow at the end. */
  lemma {:induction false} SumGrows(values: seq<word>, next: generator, state: word, k: nat, n: nat)
    requires values != [] && k <= n
    ensures Sum(Picks(values, next, state, k)) <= Sum(Picks(values, next, state, n))
    decreases n - k
  {
    if k < n {
      PicksStep(values, next, state, k);
      SumStep(Picks(values, next, state, k), Drawn(values, next(After(next, state, k)).1));
      SumGrows(values, next, state, k + 1, n);
    }
  }

  method SampleMean(values: seq<word>, next: generator, state: word) returns (r: Option<word>, after: word)
    ensures r == Statistic(values, false, next, state)
    ensures r.Some? ==> after == After(next, state, |values|)
    ensures r.None? <==> |values| == 0 || |values| > 1000 || Sum(Picks(values, next, state, |values|)) > U64_MAX
    ensures values != [] ==> AreDraws(values, next, state, Picks(values, next, state, |values|))
    ensures r.Some? ==> IsMean(r.value, |values|, Sum(Picks(values, next, state, |values|)))
    ensures 0 < |values| <= 1000 && OnceEach(Drawing(next, state, |values|), |values|) ==>
              r == if Sum(values) > U64_MAX then None else Some(Sum(values) / |values|)
  {
    hide OnceEach, Drawing, AreDraws, Picks, After, Sum, IsMean;
    MeanMeans(values, next, state);
    if |values| == 0 || |values| > MAXIMUM_SAMPLES {
      return None, state;
    }
    var total;
    total, after := SumDraws(values, next, state);
    r := if total.None? then None else Some(Mean(total.value, |values|));
  }

  /** The sum of the draws, as long as it fits a word. */
  method SumDraws(values: seq<word>, next: generator, state: word) returns (r: Option<word>, after: word)
    requires values != []
    ensures r == var sum := Sum(Picks(values, next, state, |values|)); if sum > U64_MAX then None else Some(sum)
    ensures r.Some? ==> after == After(next, state, |values|)
  {
    hide Picks, After, Sum;
    after := state;
    var total: word := 0;
    NothingYet(values, next, state);
    for sample := 0 to |values|
      invariant after == After(next, state, sample) && total == Sum(Picks(values, next, state, sample))
    {
      PicksStep(values, next, state, sample);
      var (moved, number) := next(after);
      after := moved;
      var value := values[number % |values|];
      SumStep(Picks(values, next, state, sample), value);
      if value > U64_MAX - total {
        SumGrows(values, next, state, sample + 1, |values|);
        return None, after;
      }
      total := total + value;
    }
    r := Some(total);
  }

  lemma NothingYet(values: seq<word>, next: generator, state: word)
    requires values != []
    ensures After(next, state, 0) == state
    ensures Sum(Picks(values, next, state, 0)) == 0 && Largest(Picks(values, next, state, 0)) == 0
  {
  }

  method SampleMax(values: seq<word>, next: generator, state: word) returns (r: Option<word>, after: word)
    ensures r == Statistic(values, true, next, state)
    ensures r.Some? ==> after == After(next, state, |values|)
    ensures r.None? <==> |values| == 0 || |values| > 1000
    ensures values != [] ==> AreDraws(values, next, state, Picks(values, next, state, |values|))
    ensures r.Some? ==>
              var picks := Picks(values, next, state, |values|);
              r.value in picks && forall x :: x in picks ==> x <= r.value
    ensures 0 < |values| <= 1000 && OnceEach(Drawing(next, state, |values|), |values|) ==> r == Some(Maximum(values))
  {
    MaxMeans(values, next, state);
    hide OnceEach, Drawing, AreDraws;
    after := state;
    if |values| == 0 || |values| > MAXIMUM_SAMPLES {
      return None, after;
    }
    hide Picks, After, Largest;
    var largest: word := 0;
    NothingYet(values, next, state);
    for sample := 0 to |values|
      invariant after == After(next, state, sample) && largest == Largest(Picks(values, next, state, sample))
    {
      PicksStep(values, next, state, sample);
      var (moved, number) := next(after);
      after := moved;
      var value := values[number % |values|];
      SumStep(Picks(values, next, state, sample), value);
      if value > largest {
        largest := value;
      }
    }
    r := Some(largest);
  }

  // ---- A resample that is the sample itself ----

  /** Every index below n, and none of them twice. */
  ghost predicate OnceEach(indices: seq<nat>, n: nat) {
    && |indices| == n && (forall i :: 0 <= i < n ==> indices[i] < n)
    && (forall i, j :: 0 <= i < j < n ==> indices[i] != indices[j])
    && (forall k :: 0 <= k < n ==> k in indices)
  }

  function Selected(values: seq<word>, indices: seq<nat>): (r: seq<word>)
    requires forall i :: 0 <= i < |indices| ==> indices[i] < |values|
    ensures |r| == |indices|
  {
    seq(|indices|, i requires 0 <= i < |indices| => values[indices[i]])
  }

  lemma {:induction false} SelectedSum(values: seq<word>, indices: seq<nat>)
    requires OnceEach(indices, |values|)
    ensures Sum(Selected(values, indices)) == Sum(values)
    decreases |values|
  {
    hide Sum, Selected;
    if values == [] {
      assert Selected(values, indices) == values;
    } else {
      var n := |values| - 1;
      assert n in indices;
      var p :| 0 <= p < |indices| && indices[p] == n;
      OnceFewer(indices, n, p);
      hide OnceEach;
      SelectedSum(values[..n], indices[..p] + indices[p + 1..]);
      SelectedSplit(values, indices, p);
      assert values == values[..n] + [values[n]];
      SumConcat(values[..n], [values[n]]);
    }
  }

  lemma SelectedSplit(values: seq<word>, indices: seq<nat>, p: nat)
    requires values != [] && p < |indices| && indices[p] == |values| - 1
    requires OnceEach(indices, |values|) && OnceEach(indices[..p] + indices[p + 1..], |values| - 1)
    ensures var n, rest := |values| - 1, indices[..p] + indices[p + 1..];
            Sum(Selected(values, indices)) == Sum(Selected(values[..n], rest)) + Sum([values[n]])
  {
    hide Sum;
    var n, before, after := |values| - 1, indices[..p], indices[p + 1..];
    var front, back := Selected(values, before), Selected(values, after);
    SelectedParts(values, indices, p);
    SumConcat(front, [values[n]] + back);
    SumConcat([values[n]], back);
    SumConcat(front, back);
  }

  lemma SelectedParts(values: seq<word>, indices: seq<nat>, p: nat)
    requires values != [] && p < |indices| && indices[p] == |values| - 1
    requires OnceEach(indices, |values|) && OnceEach(indices[..p] + indices[p + 1..], |values| - 1)
    ensures var n, front, back := |values| - 1, Selected(values, indices[..p]), Selected(values, indices[p + 1..]);
            && Selected(values, indices) == front + ([values[n]] + back)
            && Selected(values[..n], indices[..p] + indices[p + 1..]) == front + back
  {
    var rest := indices[..p] + indices[p + 1..];
    assert forall i :: 0 <= i < |rest| ==> rest[i] == indices[if i < p then i else i + 1] && rest[i] < |values| - 1;
  }

  lemma OnceFewer(indices: seq<nat>, n: nat, p: nat)
    requires OnceEach(indices, n + 1) && p <= n && indices[p] == n
    ensures OnceEach(indices[..p] + indices[p + 1..], n)
  {
    var rest := indices[..p] + indices[p + 1..];
    forall k | 0 <= k < n
      ensures k in rest
    {
      assert k in indices;
      var i :| 0 <= i < |indices| && indices[i] == k;
      assert rest[if i < p then i else i - 1] == k;
    }
  }

  /** The indices that the random numbers point at. */
  function Drawing(next: generator, state: word, n: nat): (r: seq<nat>)
    requires n > 0
    ensures |r| == n && forall i :: 0 <= i < n ==> r[i] == next(After(next, state, i)).1 % n
  {
    seq(n, i requires 0 <= i < n => next(After(next, state, i)).1 % n)
  }

  lemma PicksAreSelected(values: seq<word>, next: generator, state: word)
    requires values != [] && OnceEach(Drawing(next, state, |values|), |values|)
    ensures Picks(values, next, state, |values|) == Selected(values, Drawing(next, state, |values|))
  {
    hide Picks, After, OnceEach, Drawing;
    PicksAreDraws(values, next, state, |values|);
  }

  /** If the random numbers point at every sample once, the statistics are those of the samples themselves. */
  lemma FullDraw(values: seq<word>, next: generator, state: word)
    requires 0 < |values| <= 1000 && OnceEach(Drawing(next, state, |values|), |values|)
    ensures Statistic(values, false, next, state)
            == if Sum(values) > U64_MAX then None else Some(Sum(values) / |values|)
    ensures Statistic(values, true, next, state) == Some(Maximum(values))
  {
    hide Picks, After, Drawing, Selected, Sum, Largest, OnceEach, Maximum;
    PicksAreSelected(values, next, state);
    SelectedSum(values, Drawing(next, state, |values|));
    SelectedLargest(values, Drawing(next, state, |values|));
  }

  lemma SelectedLargest(values: seq<word>, indices: seq<nat>)
    requires values != [] && OnceEach(indices, |values|)
    ensures Largest(Selected(values, indices)) == Maximum(values)
  {
    hide Largest, Maximum, Selected;
    var k :| 0 <= k < |values| && values[k] == Maximum(values);
    assert k in indices;
    var i :| 0 <= i < |indices| && indices[i] == k;
    SelectedBounds(values, indices, i);
  }

  lemma SelectedBounds(values: seq<word>, indices: seq<nat>, i: nat)
    requires i < |indices| && forall j :: 0 <= j < |indices| ==> indices[j] < |values|
    requires values[indices[i]] == Maximum(values)
    ensures Largest(Selected(values, indices)) == Maximum(values)
  {
    hide Largest, Maximum;
    var picks := Selected(values, indices);
    LargestIs(picks);
    assert picks[i] == Maximum(values) && picks[i] in picks;
    var j :| 0 <= j < |picks| && picks[j] == Largest(picks);
    assert values[indices[j]] in values;
  }

  /** What the mean of a resample is, in terms of the draws. */
  lemma MeanMeans(values: seq<word>, next: generator, state: word)
    ensures var r := Statistic(values, false, next, state);
            (r.None? <==> |values| == 0 || |values| > 1000 || Sum(Picks(values, next, state, |values|)) > U64_MAX)
    ensures values != [] ==> AreDraws(values, next, state, Picks(values, next, state, |values|))
    ensures var r := Statistic(values, false, next, state);
            r.Some? ==> IsMean(r.value, |values|, Sum(Picks(values, next, state, |values|)))
    ensures 0 < |values| <= 1000 && OnceEach(Drawing(next, state, |values|), |values|) ==>
              Statistic(values, false, next, state)
              == if Sum(values) > U64_MAX then None else Some(Sum(values) / |values|)
  {
    hide OnceEach, Drawing, Sum, Picks, Mean, AreDraws;
    if 0 < |values| <= 1000 && OnceEach(Drawing(next, state, |values|), |values|) {
      FullDraw(values, next, state);
    }
    if values != [] {
      PicksAreDraws(values, next, state, |values|);
      if Sum(Picks(values, next, state, |values|)) <= U64_MAX {
        MeanIsFloor(Sum(Picks(values, next, state, |values|)), |values|);
      }
    }
  }

  /** What the largest value of a resample is, in terms of the draws. */
  lemma MaxMeans(values: seq<word>, next: generator, state: word)
    ensures Statistic(values, true, next, state).None? <==> |values| == 0 || |values| > 1000
    ensures values != [] ==> AreDraws(values, next, state, Picks(values, next, state, |values|))
    ensures var r := Statistic(values, true, next, state);
            r.Some? ==>
              var picks := Picks(values, next, state, |values|);
              r.value in picks && forall x :: x in picks ==> x <= r.value
    ensures 0 < |values| <= 1000 && OnceEach(Drawing(next, state, |values|), |values|) ==>
              Statistic(values, true, next, state) == Some(Maximum(values))
  {
    hide OnceEach, Drawing, Largest, Picks, AreDraws, Maximum;
    if 0 < |values| <= 1000 && OnceEach(Drawing(next, state, |values|), |values|) {
      FullDraw(values, next, state);
    }
    if values != [] {
      PicksAreDraws(values, next, state, |values|);
      LargestIs(Picks(values, next, state, |values|));
    }
  }

  // ---- Bounds of a statistic ----

  function Times(n: nat, x: nat): nat {
    if n == 0 then 0 else Times(n - 1, x) + x
  }

  lemma {:induction false} TimesIs(n: nat, x: nat)
    ensures Times(n, x) == x * n
  {
    if n > 0 {
      TimesIs(n - 1, x);
      assert x * n == x * (n - 1) + x;
    }
  }

  lemma {:induction false} SumBounds(s: seq<word>, low: nat, high: nat)
    requires forall i :: 0 <= i < |s| ==> low <= s[i] <= high
    ensures Times(|s|, low) <= Sum(s) <= Times(|s|, high)
    ensures s != [] ==> low <= Largest(s) <= high
  {
    if s != [] {
      SumBounds(s[..|s| - 1], low, high);
    }
  }

  lemma CancelEqual(a: nat, b: nat, n: nat)
    requires n > 0 && a * n <= b * n
    ensures a <= b
  {
    if a > b {
      MultiplyOrdered(b + 1, a, n);
    }
  }

  lemma MeanIsFloor(sum: word, n: nat)
    requires n > 0
    ensures IsMean(Mean(sum, n), n, sum)
  {
    var q := sum / n;
    assert sum == q * n + sum % n;
    assert (q + 1) * n == q * n + n;
  }

  lemma MeanBounds(sum: word, n: nat, low: nat, high: nat)
    requires n > 0 && Times(n, low) <= sum <= Times(n, high)
    ensures low <= Mean(sum, n) <= high
  {
    hide Mean, Times;
    TimesIs(n, low);
    TimesIs(n, high);
    MeanIsFloor(sum, n);
    Cancel(low, Mean(sum, n) + 1, n);
    CancelEqual(Mean(sum, n), high, n);
  }

  /** A resampled statistic lies between the smallest and the largest sample, whatever the generator. */
  lemma StatisticBounds(values: seq<word>, largest: bool, next: generator, state: word, low: nat, high: nat)
    requires forall x :: x in values ==> low <= x <= high
    ensures var r := Statistic(values, largest, next, state); r.Some? ==> low <= r.value <= high
  {
    if values != [] {
      var picks := Picks(values, next, state, |values|);
      PicksAreSamples(values, next, state, |values|);
      SumBounds(picks, low, high);
      if Sum(picks) <= U64_MAX {
        MeanBounds(Sum(picks), |values|, low, high);
      }
    }
  }

  // ---- The trials ----

  /** What is compared, and how. */
  datatype Comparison = Comparison(baseline: seq<word>, candidate: seq<word>, largest: bool, higherIsBetter: bool)

  /** One trial: the change between two resampled statistics, drawn one after the other. */
  function Trial(c: Comparison, next: generator, state: word): Outcome<int> {
    var b := Statistic(c.baseline, c.largest, next, state);
    var d := Statistic(c.candidate, c.largest, next, After(next, state, |c.baseline|));
    if b.None? || d.None? then InvalidSamples
    else if b.value != 0 && Magnitude(b.value, d.value) > I64_MAX then ArithmeticOverflow
    else Success(Change(b.value, d.value, c.higherIsBetter))
  }

  function AfterTrial(c: Comparison, next: generator, state: word): word {
    After(next, After(next, state, |c.baseline|), |c.candidate|)
  }

  /** The results of n trials, or why the first one fails that does. */
  function Trials(c: Comparison, next: generator, state: word, n: nat): Outcome<seq<int>>
    decreases n
  {
    if n == 0 then Success([])
    else
      match Trial(c, next, state)
      case Success(x) => Prepended([x], Trials(c, next, AfterTrial(c, next, state), n - 1))
      case InvalidSamples => InvalidSamples
      case ArithmeticOverflow => ArithmeticOverflow
      case ZeroBaselineUndefined => ZeroBaselineUndefined
      case ThresholdOverflow => ThresholdOverflow
  }

  function Prepended(front: seq<int>, rest: Outcome<seq<int>>): Outcome<seq<int>> {
    if rest.Success? then Success(front + rest.value) else rest
  }

  /**
   What trial number t compares. Every trial draws as many numbers as there are samples, those of
   the baseline first, and goes on where the trial before it stopped.
   */
  ghost predicate IsTrial(c: Comparison, next: generator, seed: word, t: nat, x: int) {
    var start := t * (|c.baseline| + |c.candidate|);
    var b := Statistic(c.baseline, c.largest, next, After(next, seed, start));
    var d := Statistic(c.candidate, c.largest, next, After(next, seed, start + |c.baseline|));
    b.Some? && d.Some? && x == Change(b.value, d.value, c.higherIsBetter)
  }

  lemma {:induction false} AfterBoth(next: generator, state: word, a: nat, b: nat)
    ensures After(next, After(next, state, a), b) == After(next, state, a + b)
    decreases a
  {
    if a > 0 {
      AfterBoth(next, next(state).0, a - 1, b);
    }
  }

  lemma {:induction false} TrialsInTurn(c: Comparison, next: generator, seed: word, n: nat)
    ensures var r := Trials(c, next, seed, n);
            r.Success? ==> |r.value| == n && forall t :: 0 <= t < n ==> IsTrial(c, next, seed, t, r.value[t])
    decreases n
  {
    hide Trial, AfterTrial, IsTrial;
    var r := Trials(c, next, seed, n);
    if n > 0 && r.Success? {
      var after := AfterTrial(c, next, seed);
      TrialsInTurn(c, next, after, n - 1);
      FirstTrial(c, next, seed);
      forall t | 0 < t < n
        ensures IsTrial(c, next, seed, t, r.value[t])
      {
        LaterTrial(c, next, seed, t - 1, r.value[t]);
      }
    }
  }

  lemma FirstTrial(c: Comparison, next: generator, seed: word)
    ensures var r := Trial(c, next, seed); r.Success? ==> IsTrial(c, next, seed, 0, r.value)
  {
    hide Statistic, Change, Magnitude;
    assert After(next, seed, 0) == seed;
  }

  lemma LaterTrial(c: Comparison, next: generator, seed: word, t: nat, x: int)
    requires IsTrial(c, next, AfterTrial(c, next, seed), t, x)
    ensures IsTrial(c, next, seed, t + 1, x)
  {
    hide Statistic, Change, After;
    var each := |c.baseline| + |c.candidate|;
    OneMore(each, t);
    assert (t + 1) * each == t * each + each;
    AfterBoth(next, seed, |c.baseline|, |c.candidate|);
    AfterBoth(next, seed, each, t * each);
    AfterBoth(next, seed, each, t * each + |c.baseline|);
  }

  method RunTrial(c: Comparison, next: generator, state: word) returns (r: Outcome<int>, after: word)
    ensures r == Trial(c, next, state)
    ensures r.Success? ==> after == AfterTrial(c, next, state)
    ensures var b := Statistic(c.baseline, c.largest, next, state);
            var d := Statistic(c.candidate, c.largest, next, After(next, state, |c.baseline|));
            && (r == InvalidSamples <==> b.None? || d.None?)
            && (r == ArithmeticOverflow
                <==> b.Some? && d.Some? && b.value != 0 && Magnitude(b.value, d.value) > 0x7FFF_FFFF_FFFF_FFFF)
  {
    hide Statistic, After, Change, Magnitude;
    var b, d: Option<word>;
    if c.largest {
      b, after := SampleMax(c.baseline, next, state);
    } else {
      b, after := SampleMean(c.baseline, next, state);
    }
    if b.None? {
      return InvalidSamples, after;
    }
    if c.largest {
      d, after := SampleMax(c.candidate, next, after);
    } else {
      d, after := SampleMean(c.candidate, next, after);
    }
    if d.None? {
      return InvalidSamples, after;
    }
    var regression := RegressionPpm(b.value, d.value, c.higherIsBetter);
    if regression.None? {
      return ArithmeticOverflow, after;
    }
    r := Success(regression.value);
  }

  method RunTrials(c: Comparison, next: generator, seed: word) returns (r: Outcome<seq<int>>)
    ensures r == Trials(c, next, seed, RESAMPLES)
    ensures r.Success? ==> |r.value| == 10000 && forall t :: 0 <= t < 10000 ==> IsTrial(c, next, seed, t, r.value[t])
  {
    hide Trial, AfterTrial, Trials, IsTrial;
    TrialsInTurn(c, next, seed, RESAMPLES);
    var samples: seq<int> := [];
    var state := seed;
    PrependedNothing(Trials(c, next, seed, RESAMPLES));
    for iteration := 0 to RESAMPLES
      invariant |samples| == iteration
      invariant Trials(c, next, seed, RESAMPLES) == Prepended(samples, Trials(c, next, state, RESAMPLES - iteration))
    {
      TrialsStep(c, next, state, RESAMPLES - iteration);
      var x, after := RunTrial(c, next, state);
      match x {
        case Success(value) =>
          PrependedTwice(samples, [value], Trials(c, next, after, RESAMPLES - iteration - 1));
          samples := samples + [value];
          state := after;
        case InvalidSamples =>
          return InvalidSamples;
        case ArithmeticOverflow =>
          return ArithmeticOverflow;
        case ZeroBaselineUndefined =>
          return ZeroBaselineUndefined;
        case ThresholdOverflow =>
          return ThresholdOverflow;
      }
    }
    NoTrials(c, next, state);
    assert samples + [] == samples;
    r := Success(samples);
  }

  lemma TrialsStep(c: Comparison, next: generator, state: word, n: nat)
    requires n > 0
    ensures Trials(c, next, state, n)
            == match Trial(c, next, state) {
                 case Success(x) => Prepended([x], Trials(c, next, AfterTrial(c, next, state), n - 1))
                 case InvalidSamples => InvalidSamples
                 case ArithmeticOverflow => ArithmeticOverflow
                 case ZeroBaselineUndefined => ZeroBaselineUndefined
                 case ThresholdOverflow => ThresholdOverflow
               }
  {
  }

  lemma NoTrials(c: Comparison, next: generator, state: word)
    ensures Trials(c, next, state, 0) == Success([])
  {
  }

  lemma PrependedNothing(rest: Outcome<seq<int>>)
    ensures Prepended([], rest) == rest
  {
    if rest.Success? {
      assert [] + rest.value == rest.value;
    }
  }

  lemma PrependedTwice(a: seq<int>, b: seq<int>, rest: Outcome<seq<int>>)
    ensures Prepended(a, Prepended(b, rest)) == Prepended(a + b, rest)
  {
    if rest.Success? {
      assert a + (b + rest.value) == a + b + rest.value;
    }
  }

  // ---- Order statistics ----

  predicate Ascending(s: seq<int>) {
    forall i, j :: 0 <= i < j < |s| ==> s[i] <= s[j]
  }

  /** How many values lie above a threshold. */
  function Above(s: seq<int>, t: int): nat {
    if s == [] then 0 else Above(s[..|s| - 1], t) + if s[|s| - 1] > t then 1 else 0
  }

  lemma {:induction false} AboveConcat(a: seq<int>, b: seq<int>, t: int)
    ensures Above(a + b, t) == Above(a, t) + Above(b, t)
  {
    if b == [] {
      assert a + b == a;
    } else {
      AboveConcat(a, b[..|b| - 1], t);
      assert (a + b)[..|a + b| - 1] == a + b[..|b| - 1];
    }
  }

  lemma {:induction false} AboveAll(s: seq<int>, t: int)
    ensures Above(s, t) <= |s|
    ensures (forall i :: 0 <= i < |s| ==> s[i] > t) ==> Above(s, t) == |s|
    ensures (forall i :: 0 <= i < |s| ==> s[i] <= t) ==> Above(s, t) == 0
  {
    if s != [] {
      AboveAll(s[..|s| - 1], t);
    }
  }

  /** In ascending order, the value at position i exceeds t exactly when all but i values do. */
  lemma OrderStatistic(s: seq<int>, i: nat, t: int)
    requires Ascending(s) && i < |s|
    ensures s[i] > t <==> Above(s, t) >= |s| - i
  {
    hide Above;
    if s[i] > t {
      assert s == s[..i] + s[i..];
      AboveConcat(s[..i], s[i..], t);
      AboveAll(s[i..], t);
    } else {
      assert s == s[..i + 1] + s[i + 1..];
      AboveConcat(s[..i + 1], s[i + 1..], t);
      AboveAll(s[..i + 1], t);
      AboveAll(s[i + 1..], t);
    }
  }

  function Without(s: seq<int>, j: nat): seq<int>
    requires j < |s|
  {
    s[..j] + s[j + 1..]
  }

  lemma AboveWithout(s: seq<int>, j: nat, t: int)
    requires j < |s|
    ensures Above(s, t) == Above(Without(s, j), t) + if s[j] > t then 1 else 0
  {
    assert Above([s[j]], t) == if s[j] > t then 1 else 0 by {
      assert [s[j]][..0] == [];
    }
    hide Above;
    assert s == s[..j] + ([s[j]] + s[j + 1..]);
    AboveConcat(s[..j], [s[j]] + s[j + 1..], t);
    AboveConcat([s[j]], s[j + 1..], t);
    AboveConcat(s[..j], s[j + 1..], t);
  }

  lemma MultisetWithout(s: seq<int>, j: nat)
    requires j < |s|
    ensures multiset(Without(s, j)) == multiset(s) - multiset{s[j]}
  {
    assert s == s[..j] + [s[j]] + s[j + 1..];
  }

  /** Counting does not depend on the order. */
  lemma {:induction false} AbovePermutation(a: seq<int>, b: seq<int>, t: int)
    requires multiset(a) == multiset(b)
    ensures Above(a, t) == Above(b, t) && |a| == |b|
    decreases |a|
  {
    hide Without;
    assert |multiset(a)| == |multiset(b)|;
    if a != [] {
      var n := |a| - 1;
      assert a[n] in multiset(b);
      var j :| 0 <= j < |b| && b[j] == a[n];
      MultisetWithout(a, n);
      MultisetWithout(b, j);
      WithoutSize(a, n);
      AboveWithout(a, n, t);
      AboveWithout(b, j, t);
      AbovePermutation(Without(a, n), Without(b, j), t);
    }
  }

  lemma WithoutSize(s: seq<int>, j: nat)
    requires j < |s|
    ensures |Without(s, j)| == |s| - 1
  {
  }

  function Inserted(s: seq<int>, x: int): seq<int> {
    if s == [] || x <= s[0] then [x] + s else [s[0]] + Inserted(s[1..], x)
  }

  lemma {:induction false} InsertedMultiset(s: seq<int>, x: int)
    ensures multiset(Inserted(s, x)) == multiset(s) + multiset{x}
  {
    if s != [] && x > s[0] {
      InsertedMultiset(s[1..], x);
      assert s == [s[0]] + s[1..];
    }
  }

  lemma {:induction false} InsertedAscending(s: seq<int>, x: int)
    requires Ascending(s)
    ensures Ascending(Inserted(s, x))
  {
    if s == [] || x <= s[0] {
      AscendingFront(x, s);
    } else {
      var tail, rest := s[1..], Inserted(s[1..], x);
      InsertedAscending(tail, x);
      InsertedFrom(tail, x, s[0]);
      AscendingFront(s[0], rest);
    }
  }

  lemma AscendingFront(x: int, s: seq<int>)
    requires Ascending(s) && forall j :: 0 <= j < |s| ==> x <= s[j]
    ensures Ascending([x] + s)
  {
  }

  lemma {:induction false} InsertedFrom(s: seq<int>, x: int, bound: int)
    requires bound <= x && forall j :: 0 <= j < |s| ==> bound <= s[j]
    ensures forall j :: 0 <= j < |Inserted(s, x)| ==> bound <= Inserted(s, x)[j]
  {
    if s != [] && x > s[0] {
      InsertedFrom(s[1..], x, bound);
    }
  }

  /** Some ascending permutation. */
  method Sort(s: seq<int>) returns (r: seq<int>)
    ensures Ascending(r) && multiset(r) == multiset(s)
  {
    r := [];
    for i := 0 to |s|
      invariant Ascending(r) && multiset(r) == multiset(s[..i])
    {
      InsertedAscending(r, s[i]);
      InsertedMultiset(r, s[i]);
      assert s[..i + 1] == s[..i] + [s[i]];
      r := Inserted(r, s[i]);
    }
    assert s[..|s|] == s;
  }

  // ---- The verdict ----

  predicate HasNonzero(values: seq<word>) {
    exists i :: 0 <= i < |values| && values[i] != 0
  }

  datatype Interval = Interval(lower: int, upper: int)

  /** The interval between two order statistics of the trials. */
  method BootstrapInterval(baseline: Series, candidate: Series, largest: bool, higherIsBetter: bool,
                           next: generator, seed: word) returns (r: Outcome<Interval>)
    ensures var c := Comparison(baseline.values, candidate.values, largest, higherIsBetter);
            if !baseline.available || !candidate.available then r == InvalidSamples
            else if !HasNonzero(baseline.values) && HasNonzero(candidate.values) then r == ZeroBaselineUndefined
            else match Trials(c, next, seed, RESAMPLES)
                 case Success(samples) =>
                   && r.Success? && |samples| == 10000 && r.value.lower <= r.value.upper
                   && (forall t :: r.value.lower > t <==> Above(samples, t) >= 9751)
                   && (forall t :: r.value.upper > t <==> Above(samples, t) >= 251)
                 case InvalidSamples => r == InvalidSamples
                 case ArithmeticOverflow => r == ArithmeticOverflow
                 case ZeroBaselineUndefined => r == ZeroBaselineUndefined
                 case ThresholdOverflow => r == ThresholdOverflow
  {
    hide Trials, Above;
    if !baseline.available || !candidate.available {
      return InvalidSamples;
    }
    var b := AnyNonzero(baseline.values);
    var d := AnyNonzero(candidate.values);
    if !b && d {
      return ZeroBaselineUndefined;
    }
    var trials := RunTrials(Comparison(baseline.values, candidate.values, largest, higherIsBetter), next, seed);
    match trials {
      case Success(samples) =>
        var sorted := Sort(samples);
        Quantiles(samples, sorted);
        r := Success(Interval(sorted[LOWER], sorted[UPPER]));
      case InvalidSamples => r := InvalidSamples;
      case ArithmeticOverflow => r := ArithmeticOverflow;
      case ZeroBaselineUndefined => r := ZeroBaselineUndefined;
      case ThresholdOverflow => r := ThresholdOverflow;
    }
  }

  lemma Quantiles(samples: seq<int>, sorted: seq<int>)
    requires Ascending(sorted) && multiset(sorted) == multiset(samples) && |samples| == RESAMPLES
    ensures |sorted| == RESAMPLES && sorted[LOWER] <= sorted[UPPER]
    ensures forall t :: sorted[LOWER] > t <==> Above(samples, t) >= RESAMPLES - LOWER
    ensures forall t :: sorted[UPPER] > t <==> Above(samples, t) >= RESAMPLES - UPPER
  {
    AbovePermutation(samples, sorted, 0);
    forall t
      ensures sorted[LOWER] > t <==> Above(samples, t) >= RESAMPLES - LOWER
      ensures sorted[UPPER] > t <==> Above(samples, t) >= RESAMPLES - UPPER
    {
      AbovePermutation(samples, sorted, t);
      OrderStatistic(sorted, LOWER, t);
      OrderStatistic(sorted, UPPER, t);
    }
  }

  method AnyNonzero(values: seq<word>) returns (found: bool)
    ensures found == HasNonzero(values)
  {
    for index := 0 to |values|
      invariant forall i :: 0 <= i < index ==> values[i] == 0
    {
      if values[index] != 0 {
        return true;
      }
    }
    found := false;
  }

  /** A rule is flagged exactly when at least 9751 of the 10000 trials exceed what is allowed plus the noise. */
  method Flagged(baseline: Series, candidate: Series, largest: bool, higherIsBetter: bool,
                 allowed: word, noise: word, next: generator, seed: word) returns (r: Outcome<bool>)
    ensures r.Success? ==>
              && baseline.available && candidate.available && allowed + noise <= U64_MAX
              && var c := Comparison(baseline.values, candidate.values, largest, higherIsBetter);
                 var trials := Trials(c, next, seed, RESAMPLES);
                 trials.Success? && (r.value <==> Above(trials.value, allowed + noise) >= 9751)
    ensures var c := Comparison(baseline.values, candidate.values, largest, higherIsBetter);
            && (r.Success? <==>
                  && baseline.available && candidate.available && allowed + noise <= U64_MAX
                  && (HasNonzero(baseline.values) || !HasNonzero(candidate.values))
                  && Trials(c, next, seed, RESAMPLES).Success?)
            && (NoWorse(c) ==> r != Success(true))
  {
    hide Trials, Above, HasNonzero, NoWorse;
    ghost var c := Comparison(baseline.values, candidate.values, largest, higherIsBetter);
    if NoWorse(c) {
      NeverFlagged(c, next, seed, allowed + noise);
    }
    var bootstrap := BootstrapInterval(baseline, candidate, largest, higherIsBetter, next, seed);
    match bootstrap {
      case Success(interval) =>
        if allowed > U64_MAX - noise {
          return ThresholdOverflow;
        }
        var threshold: word := allowed + noise;
        r := Success(interval.lower > 0 && interval.lower > threshold);
      case InvalidSamples => r := InvalidSamples;
      case ArithmeticOverflow => r := ArithmeticOverflow;
      case ZeroBaselineUndefined => r := ZeroBaselineUndefined;
      case ThresholdOverflow => r := ThresholdOverflow;
    }
  }

  // ---- What is never flagged ----

  /** Every candidate sample is at least as good as every baseline sample. */
  ghost predicate NoWorse(c: Comparison) {
    forall x, y :: x in c.baseline && y in c.candidate ==> if c.higherIsBetter then y >= x else y <= x
  }

  lemma TrialNoWorse(c: Comparison, next: generator, state: word)
    requires NoWorse(c)
    ensures var r := Trial(c, next, state); r.Success? ==> r.value <= 0
  {
    hide Change, Magnitude;
    var b := Statistic(c.baseline, c.largest, next, state);
    var d := Statistic(c.candidate, c.largest, next, After(next, state, |c.baseline|));
    if b.Some? && d.Some? {
      Separated(c, b.value, d.value, next, state);
      ChangeSign(b.value, d.value, c.higherIsBetter);
    }
  }

  lemma Separated(c: Comparison, b: word, d: word, next: generator, state: word)
    requires NoWorse(c)
    requires Statistic(c.baseline, c.largest, next, state) == Some(b)
    requires Statistic(c.candidate, c.largest, next, After(next, state, |c.baseline|)) == Some(d)
    ensures !IsRegression(b, d, c.higherIsBetter)
  {
    hide Statistic, After;
    if c.higherIsBetter {
      var top := Maximum(c.baseline);
      StatisticBounds(c.baseline, c.largest, next, state, 0, top);
      assert forall y :: y in c.candidate ==> top <= y <= U64_MAX;
      StatisticBounds(c.candidate, c.largest, next, After(next, state, |c.baseline|), top, U64_MAX);
    } else {
      var top := Maximum(c.candidate);
      StatisticBounds(c.candidate, c.largest, next, After(next, state, |c.baseline|), 0, top);
      assert forall x :: x in c.baseline ==> top <= x <= U64_MAX;
      StatisticBounds(c.baseline, c.largest, next, state, top, U64_MAX);
    }
  }

  function Maximum(s: seq<word>): (r: word)
    ensures forall x :: x in s ==> x <= r
    ensures s != [] ==> r in s
  {
    if s == [] then 0
    else
      var m := Maximum(s[1..]);
      assert forall x :: x in s ==> x == s[0] || x in s[1..];
      if s[0] >= m || s[1..] == [] then s[0] else m
  }

  lemma {:induction false} TrialsNoWorse(c: Comparison, next: generator, state: word, n: nat)
    requires NoWorse(c)
    ensures var r := Trials(c, next, state, n);
            r.Success? ==> forall i :: 0 <= i < |r.value| ==> r.value[i] <= 0
    decreases n
  {
    hide Trial, AfterTrial;
    if n > 0 {
      TrialNoWorse(c, next, state);
      TrialsNoWorse(c, next, AfterTrial(c, next, state), n - 1);
    }
  }

  /** Whatever the generator does, a candidate that is nowhere worse is never flagged. */
  lemma NeverFlagged(c: Comparison, next: generator, seed: word, threshold: nat)
    requires NoWorse(c)
    ensures var r := Trials(c, next, seed, RESAMPLES); r.Success? ==> Above(r.value, threshold) == 0
  {
    hide Trials;
    TrialsNoWorse(c, next, seed, RESAMPLES);
    var r := Trials(c, next, seed, RESAMPLES);
    if r.Success? {
      AboveAll(r.value, threshold);
    }
  }
}
