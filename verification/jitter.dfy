/** Online jitter estimator of the receivers.  Inter-arrival gaps are
    whole microseconds, so the running sum and sum of squares are exact
    integers; the mean and the Bessel-corrected variance are exact reals
    (the square root that turns the variance into a standard deviation is
    not modelled). */
module Jitter {
  import opened Ints

  /** `variance` is the square of the source's `jitter_stddev`. */
  datatype JitterStats = JitterStats(
    sum: int,
    sumSq: int,
    samples: nat,
    mean: real,
    variance: real,
    prevGapUs: int)

  const NoJitter := JitterStats(0, 0, 0, 0.0, 0.0, 0)

  /** Feed one inter-arrival gap.  A sample |gap - previous gap| is taken
      only when the previous gap is positive; the mean is refreshed with
      every sample, the variance only once there are two or more; the
      previous gap is replaced every time. */
  function Observe(j: JitterStats, gapUs: int): (r: JitterStats)
    ensures r.prevGapUs == gapUs
    ensures j.prevGapUs > 0 <==> r.samples == j.samples + 1
    ensures j.prevGapUs <= 0 ==> r == j.(prevGapUs := gapUs)
    ensures j.prevGapUs > 0 ==> r.sum == j.sum + Abs(gapUs - j.prevGapUs)
    ensures j.prevGapUs > 0 ==> r.mean == RunningMean(r.sum, r.samples)
    ensures j.samples <= 1 && r.samples <= 1 ==> r.variance == j.variance
  {
    if j.prevGapUs > 0 then
      var x := Abs(gapUs - j.prevGapUs);
      var n := j.samples + 1;
      var sum := j.sum + x;
      var sq := j.sumSq + x * x;
      var mean := RunningMean(sum, n);
      var variance := if n > 1 then RunningVariance(sq, sum, n) else j.variance;
      JitterStats(sum, sq, n, mean, variance, gapUs)
    else
      j.(prevGapUs := gapUs)
  }

  /** `avg_jitter`: the running sum over the sample count. */
  function RunningMean(sum: int, n: nat): real
    requires n > 0
  {
    sum as real / n as real
  }

  /** The square of `jitter_stddev` as the source computes it from the two
      running sums: (sum(x^2) - (sum x)^2 / n) / (n - 1). */
  function RunningVariance(sq: int, sum: int, n: nat): real
    requires n > 1
  {
    (sq as real - (sum as real * sum as real) / n as real) / (n - 1) as real
  }

  /** The estimator after a stream of gaps, oldest first. */
  function ObserveAll(gaps: seq<int>): JitterStats
  {
    if |gaps| == 0 then NoJitter
    else Observe(ObserveAll(gaps[..|gaps| - 1]), gaps[|gaps| - 1])
  }

  // ---------------------------------------------------------------------
  // Reference definition: the jitter samples a gap stream yields

  /** Gap `i` (i >= 1) yields the sample |gaps[i] - gaps[i-1]| when
      gaps[i-1] is positive; gap 0 is compared with the initial zero and
      never yields one. */
  function Samples(gaps: seq<int>): seq<nat>
  {
    if |gaps| <= 1 then []
    else
      var n := |gaps|;
      Samples(gaps[..n - 1]) + (if gaps[n - 2] > 0 then [Abs(gaps[n - 1] - gaps[n - 2])] else [])
  }

  function Sum(xs: seq<int>): int
  {
    if |xs| == 0 then 0 else Sum(xs[..|xs| - 1]) + xs[|xs| - 1]
  }

  function SumSq(xs: seq<int>): int
  {
    if |xs| == 0 then 0 else SumSq(xs[..|xs| - 1]) + xs[|xs| - 1] * xs[|xs| - 1]
  }

  /** Bessel-corrected sample variance, n * sum(x^2) - (sum x)^2 over n(n-1). */
  function SampleVariance(xs: seq<int>): real
    requires |xs| > 1
  {
    var n := |xs|;
    (n * SumSq(xs) - Sum(xs) * Sum(xs)) as real / (n * (n - 1)) as real
  }

  function Mean(xs: seq<int>): real
    requires |xs| > 0
  {
    Sum(xs) as real / |xs| as real
  }

  /** The source's formula (sum(x^2) - (sum x)^2 / n) / (n - 1) is the
      sample variance. */
  lemma RunningFormulaIsVariance(sq: int, sum: int, n: nat)
    requires n > 1
    ensures RunningVariance(sq, sum, n) == (n * sq - sum * sum) as real / (n * (n - 1)) as real
  {
    var N := n as real;
    var a := sq as real - (sum as real * sum as real) / N;
    assert a * N == N * sq as real - sum as real * sum as real;
    assert a == (N * sq as real - sum as real * sum as real) / N;
    assert (n * (n - 1)) as real == N * (N - 1.0);
  }

  /** The estimator state `j` summarises the samples `xs`: its accumulators
      are their sums and its mean and variance are theirs. */
  ghost predicate Summarises(j: JitterStats, xs: seq<int>)
  {
    && j.sum == Sum(xs)
    && j.sumSq == SumSq(xs)
    && j.samples == |xs|
    && j.mean == (if |xs| == 0 then 0.0 else Mean(xs))
    && j.variance == (if |xs| <= 1 then 0.0 else SampleVariance(xs))
  }

  lemma ObserveTakesSample(j: JitterStats, xs: seq<int>, gapUs: int)
    requires Summarises(j, xs) && j.prevGapUs > 0
    ensures Summarises(Observe(j, gapUs), xs + [Abs(gapUs - j.prevGapUs)])
  {
    var x := Abs(gapUs - j.prevGapUs);
    var ys := xs + [x];
    assert ys[..|ys| - 1] == xs;
    assert Sum(ys) == Sum(xs) + x;
    assert SumSq(ys) == SumSq(xs) + x * x;
    var r := Observe(j, gapUs);
    assert r.sum == Sum(ys) && r.sumSq == SumSq(ys) && r.samples == |ys|;
    if |ys| > 1 {
      RunningFormulaIsVariance(SumSq(ys), Sum(ys), |ys|);
    }
  }

  lemma ObserveSkipsSample(j: JitterStats, xs: seq<int>, gapUs: int)
    requires Summarises(j, xs) && j.prevGapUs <= 0
    ensures Summarises(Observe(j, gapUs), xs)
  {
  }

  /** The estimator's accumulators are exactly the sums of the reference
      samples, its mean and variance are theirs, and it remembers the last
      gap. */
  lemma {:induction false} ObserveAllMatchesSamples(gaps: seq<int>)
    ensures Summarises(ObserveAll(gaps), Samples(gaps))
    ensures ObserveAll(gaps).prevGapUs == if |gaps| == 0 then 0 else gaps[|gaps| - 1]
  {
    if |gaps| > 0 {
      var n := |gaps|;
      var prefix := gaps[..n - 1];
      ObserveAllMatchesSamples(prefix);
      var j := ObserveAll(prefix);
      assert ObserveAll(gaps) == Observe(j, gaps[n - 1]);
      if n == 1 {
        assert Samples(gaps) == [] == Samples(prefix);
        ObserveSkipsSample(j, [], gaps[n - 1]);
      } else {
        assert prefix[n - 2] == gaps[n - 2];
        if gaps[n - 2] > 0 {
          assert Samples(gaps) == Samples(prefix) + [Abs(gaps[n - 1] - j.prevGapUs)];
          ObserveTakesSample(j, Samples(prefix), gaps[n - 1]);
        } else {
          assert Samples(gaps) == Samples(prefix);
          ObserveSkipsSample(j, Samples(prefix), gaps[n - 1]);
        }
      }
    }
  }

  /** Algebra of one more sample in the variance numerator. */
  lemma NumeratorStep(n: int, q: int, s: int, x: int)
    ensures (n + 1) * (q + x * x) - (s + x) * (s + x)
            == (n * q - s * s) + (q - 2 * x * s + n * x * x)
  {
  }

  /** Algebra of one more sample in the spread around c. */
  lemma SpreadStep(n: int, q: int, s: int, x: int, c: int)
    ensures (q + x * x) - 2 * c * (s + x) + (n + 1) * c * c
            == (q - 2 * c * s + n * c * c) + (x - c) * (x - c)
  {
  }

  lemma SquareNonNegative(y: int)
    ensures y * y >= 0
  {
    if y < 0 {
      assert y * y == (-y) * (-y);
    }
  }

  /** Spread of the samples around any point c: sum (x - c)^2 >= 0. */
  lemma {:induction false} SpreadNonNegative(xs: seq<int>, c: int)
    ensures SumSq(xs) - 2 * c * Sum(xs) + |xs| * c * c >= 0
  {
    if |xs| > 0 {
      var n := |xs| - 1;
      var x := xs[n];
      SpreadNonNegative(xs[..n], c);
      var q, s := SumSq(xs[..n]), Sum(xs[..n]);
      assert SumSq(xs) == q + x * x && Sum(xs) == s + x && |xs| == n + 1;
      SpreadStep(n, q, s, x, c);
      SquareNonNegative(x - c);
    }
  }

  /** The variance numerator n * sum(x^2) - (sum x)^2 is never negative. */
  lemma {:induction false} VarianceNumeratorNonNegative(xs: seq<int>)
    ensures |xs| * SumSq(xs) - Sum(xs) * Sum(xs) >= 0
  {
    if |xs| > 0 {
      var n := |xs| - 1;
      var x := xs[n];
      var q, s := SumSq(xs[..n]), Sum(xs[..n]);
      VarianceNumeratorNonNegative(xs[..n]);
      SpreadNonNegative(xs[..n], x);
      assert SumSq(xs) == q + x * x && Sum(xs) == s + x && |xs| == n + 1;
      NumeratorStep(n, q, s, x);
    }
  }

  /** Whatever the gaps, the estimator's variance (hence the argument of the
      square root) is non-negative, and its mean is non-negative. */
  lemma EstimatesNonNegative(gaps: seq<int>)
    ensures ObserveAll(gaps).variance >= 0.0
    ensures ObserveAll(gaps).mean >= 0.0
  {
    ObserveAllMatchesSamples(gaps);
    var xs := Samples(gaps);
    if |xs| > 0 {
      MeanNonNegative(xs);
    }
    if |xs| > 1 {
      VarianceNonNegative(xs);
    }
  }

  lemma MeanNonNegative(xs: seq<nat>)
    requires |xs| > 0
    ensures Mean(xs) >= 0.0
  {
    SamplesSumNonNegative(xs);
    QuotientNonNegative(Sum(xs), |xs|);
  }

  lemma VarianceNonNegative(xs: seq<int>)
    requires |xs| > 1
    ensures SampleVariance(xs) >= 0.0
  {
    var n := |xs|;
    VarianceNumeratorNonNegative(xs);
    assert n * (n - 1) > 0;
    QuotientNonNegative(n * SumSq(xs) - Sum(xs) * Sum(xs), n * (n - 1));
  }

  lemma QuotientNonNegative(a: int, b: int)
    requires a >= 0 && b > 0
    ensures a as real / b as real >= 0.0
  {
  }

  lemma {:induction false} SamplesSumNonNegative(xs: seq<nat>)
    ensures Sum(xs) >= 0
  {
    if |xs| > 0 {
      SamplesSumNonNegative(xs[..|xs| - 1]);
    }
  }

  /** Gap i >= 1 can yield at most one sample and gap 0 none: there are
      fewer samples than gaps, and none before the second gap. */
  lemma {:induction false} SampleCountBound(gaps: seq<int>)
    ensures |gaps| > 0 ==> |Samples(gaps)| <= |gaps| - 1
    ensures |gaps| <= 1 ==> ObserveAll(gaps).samples == 0
  {
    if |gaps| > 1 {
      SampleCountBound(gaps[..|gaps| - 1]);
    }
    ObserveAllMatchesSamples(gaps);
  }

  /** Constant positive gaps: the samples are all zero, so mean and
      variance are zero. */
  lemma SteadyGaps(g: int)
    requires g > 0
    ensures ObserveAll([g, g, g]).samples == 2
    ensures ObserveAll([g, g, g]).mean == 0.0
    ensures ObserveAll([g, g, g]).variance == 0.0
  {
    var gaps := [g, g, g];
    assert gaps[..2] == [g, g] && gaps[..2][..1] == [g] && [g][..0] == [];
    var j1 := ObserveAll([g]);
    assert j1 == Observe(ObserveAll([]), g);
    assert j1 == JitterStats(0, 0, 0, 0.0, 0.0, g);
    var j2 := ObserveAll([g, g]);
    assert j2 == Observe(j1, g);
    assert j2.sum == 0 && j2.sumSq == 0 && j2.samples == 1;
    var j3 := ObserveAll(gaps);
    assert j3 == Observe(j2, g);
    assert j3.sum == 0 && j3.sumSq == 0 && j3.samples == 2;
  }

  /** Gaps a, b, a (a, b > 0) give the samples |b - a|, |a - b|: the mean is
      |b - a| and the variance zero; 100, 150, 100 gives mean 50. */
  lemma AlternatingGaps(a: int, b: int)
    requires a > 0 && b > 0
    ensures ObserveAll([a, b, a]).samples == 2
    ensures ObserveAll([a, b, a]).mean == Abs(b - a) as real
    ensures ObserveAll([a, b, a]).variance == 0.0
  {
    var gaps := [a, b, a];
    var d := Abs(b - a);
    assert gaps[..2] == [a, b] && gaps[..2][..1] == [a];
    assert Samples([a, b]) == [d];
    assert Samples(gaps) == [d, d];
    ObserveAllMatchesSamples(gaps);
    EqualPair(d);
  }

  lemma EqualPair(d: int)
    ensures Mean([d, d]) == d as real
    ensures SampleVariance([d, d]) == 0.0
  {
    assert [d, d][..1] == [d] && [d][..0] == [];
    assert Sum([d]) == d && SumSq([d]) == d * d;
    assert Sum([d, d]) == 2 * d;
    assert SumSq([d, d]) == d * d + d * d;
    assert 2 * (d * d + d * d) - (2 * d) * (2 * d) == 0;
  }
}
