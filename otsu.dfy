/** Otsu's threshold: the scan over candidate thresholds `t = 0..255` that
    keeps the first `t` of largest between-class variance
    (`calculateOtsuThreshold` in lab2/src/ImageProcessorPart2.cpp and in
    lab2/src/ThresholdProcessing.cpp, which share this loop). The float
    arithmetic is taken as exact: sums and means are `real`s. */
module Otsu {
  import opened Pixels
  import opened Distribution

  /** The value of a C++ `int` product: 32-bit two's-complement wrap-around. */
  function Wrap32(v: int): (r: int)
    ensures -0x8000_0000 <= r < 0x8000_0000
    ensures -0x8000_0000 <= v < 0x8000_0000 ==> r == v
  {
    if -0x8000_0000 <= v < 0x8000_0000 then
      DivModUnique(0, 0x1_0000_0000, v + 0x8000_0000);
      (v + 0x8000_0000) % 0x1_0000_0000 - 0x8000_0000
    else (v + 0x8000_0000) % 0x1_0000_0000 - 0x8000_0000
  }

  /** The weight factor `wB * wF` of the variance: exact (the float product
      of `static_cast<float>(wB) * static_cast<float>(wF)`), or, when
      `wrapped`, the 32-bit `int` product that is converted to float only
      afterwards. */
  function WeightProduct(wB: int, wF: int, wrapped: bool): int
  {
    if wrapped then Wrap32(wB * wF) else wB * wF
  }

  /** The between-class variance `wB * wF * (mB - mF)^2` with class means
      `mB = sumB / wB` and `mF = (sum - sumB) / wF`. */
  function Variance(wB: int, wF: int, sumB: real, sum: real, wrapped: bool): real
    requires wB != 0 && wF != 0
  {
    var mB := sumB / wB as real;
    var mF := (sum - sumB) / wF as real;
    (WeightProduct(wB, wF, wrapped) as real) * (mB - mF) * (mB - mF)
  }

  /** A score of a candidate from its weights and background class sum. */
  type Scorer = (int, int, real) -> real

  /** The between-class variance for the weighted sum `sum` of the whole
      histogram, as a `Scorer`. */
  function VarianceOf(sum: real, wrapped: bool): Scorer
  {
    (wB, wF, sumB) => if wB != 0 && wF != 0 then Variance(wB, wF, sumB, sum, wrapped) else 0.0
  }

  /** `sum += i * histogram[i]` over the first `n` bins. */
  function WeightedSum(hist: seq<int>, n: nat): real
    requires n <= |hist|
  {
    if n == 0 then 0.0 else WeightedSum(hist, n - 1) + ((n - 1) * hist[n - 1]) as real
  }

  /** The accumulators of the threshold loop. `stopped` records the `break`
      taken when the foreground weight reaches zero. */
  datatype OtsuState = OtsuState(wB: int, sumB: real, varMax: real, threshold: int, stopped: bool)

  /** One iteration of the loop at candidate `t`. */
  function OtsuStep(hist: seq<int>, total: int, score: Scorer, s: OtsuState, t: nat): OtsuState
    requires t < |hist|
  {
    if s.stopped then s
    else
      var wB := s.wB + hist[t];
      if wB == 0 then s.(wB := wB)
      else if total - wB == 0 then s.(wB := wB, stopped := true)
      else
        var sumB := s.sumB + (t * hist[t]) as real;
        var v := score(wB, total - wB, sumB);
        if v > s.varMax then OtsuState(wB, sumB, v, t, false)
        else s.(wB := wB, sumB := sumB)
  }

  /** The accumulators after the iterations for candidates `0..t-1`. */
  function OtsuRun(hist: seq<int>, total: int, score: Scorer, t: nat): OtsuState
    requires t <= |hist|
  {
    if t == 0 then OtsuState(0, 0.0, 0.0, 0, false)
    else OtsuStep(hist, total, score, OtsuRun(hist, total, score, t - 1), t - 1)
  }

  /** The variance the loop scores candidates of `hist` by. */
  function OtsuScorer(hist: seq<int>, wrapped: bool): Scorer
  {
    VarianceOf(WeightedSum(hist, |hist|), wrapped)
  }

  /** The candidate the loop keeps when it scores by `score`. */
  function OtsuPick(hist: seq<int>, total: int, score: Scorer): (r: int)
    requires |hist| == 256
    ensures 0 <= r < 256
  {
    OtsuRunState(hist, total, score, 256);
    OtsuRun(hist, total, score, 256).threshold
  }

  /** The threshold `calculateOtsuThreshold` returns. */
  function OtsuThreshold(hist: seq<int>, total: int, wrapped: bool): int
    requires |hist| == 256
  {
    OtsuPick(hist, total, OtsuScorer(hist, wrapped))
  }

  // ---------------------------------------------------------------------
  // The candidates, described independently of the loop

  /** The background weight at candidate `t`: the pixels in bins `0..t`. */
  function Cum(hist: seq<int>, t: nat): int
    requires t < |hist|
  {
    Sum(hist[..t + 1])
  }

  /** The loop stops at `t` when the background takes in every pixel. */
  predicate Stops(hist: seq<int>, total: int, t: nat)
    requires t < |hist|
  {
    Cum(hist, t) != 0 && Cum(hist, t) == total
  }

  /** Candidate `t` is scored: the loop has not stopped before it and both
      classes have non-zero weight at it. */
  predicate Scored(hist: seq<int>, total: int, t: nat)
    requires t < |hist|
  {
    && (forall i :: 0 <= i < t ==> !Stops(hist, total, i))
    && Cum(hist, t) != 0 && Cum(hist, t) != total
  }

  /** `sumB` at candidate `t`: `i * hist[i]` over the bins `i <= t` whose
      background weight is non-zero (the others are skipped by `continue`). */
  function ClassSum(hist: seq<int>, n: nat): real
    requires n <= |hist|
  {
    if n == 0 then 0.0
    else ClassSum(hist, n - 1) + (if Cum(hist, n - 1) != 0 then ((n - 1) * hist[n - 1]) as real else 0.0)
  }

  /** The score of candidate `t`. */
  function Score(hist: seq<int>, total: int, score: Scorer, t: nat): real
    requires t < |hist|
  {
    score(Cum(hist, t), total - Cum(hist, t), ClassSum(hist, t + 1))
  }

  /** What the accumulators `s` hold after `t` iterations, in terms of the
      candidates: the weight and class sum so far, the best score seen, and
      a threshold that is the first candidate reaching it. */
  ghost predicate Summary(hist: seq<int>, total: int, score: Scorer, t: nat, s: OtsuState)
    requires t <= |hist|
  {
    && (s.stopped <==> exists i :: 0 <= i < t && Stops(hist, total, i))
    && (!s.stopped ==> s.wB == Sum(hist[..t]) && s.sumB == ClassSum(hist, t))
    && 0 <= s.threshold && (s.threshold < t || s.threshold == 0) && s.varMax >= 0.0
    && (forall i :: 0 <= i < t && Scored(hist, total, i) ==> Score(hist, total, score, i) <= s.varMax)
    && (s.varMax == 0.0 ==> s.threshold == 0)
    && (s.varMax > 0.0 ==>
          && s.threshold < t && Scored(hist, total, s.threshold)
          && Score(hist, total, score, s.threshold) == s.varMax
          && forall i :: 0 <= i < s.threshold && Scored(hist, total, i) ==> Score(hist, total, score, i) < s.varMax)
  }

  /** A stopped loop stays stopped and scores nothing more. */
  lemma StepStopped(hist: seq<int>, total: int, score: Scorer, u: nat, p: OtsuState)
    requires u < |hist| && Summary(hist, total, score, u, p) && p.stopped
    ensures Summary(hist, total, score, u + 1, OtsuStep(hist, total, score, p, u))
  {
    var j :| 0 <= j < u && Stops(hist, total, j);
    assert !Scored(hist, total, u);
  }

  /** An iteration that is not stopped sees the weight of bins `0..u`. */
  lemma StepRunning(hist: seq<int>, total: int, score: Scorer, u: nat, p: OtsuState)
    requires u < |hist| && Summary(hist, total, score, u, p) && !p.stopped
    ensures Summary(hist, total, score, u + 1, OtsuStep(hist, total, score, p, u))
  {
    SumPrefixStep(hist, u);
    assert p.wB + hist[u] == Cum(hist, u);
    if Cum(hist, u) == 0 {
      StepSkip(hist, total, score, u, p);
    } else if total == Cum(hist, u) {
      StepStop(hist, total, score, u, p);
    } else {
      StepScore(hist, total, score, u, p);
    }
  }

  /** `continue`: an empty background scores nothing and adds nothing. */
  lemma StepSkip(hist: seq<int>, total: int, score: Scorer, u: nat, p: OtsuState)
    requires u < |hist| && Summary(hist, total, score, u, p) && !p.stopped
    requires p.wB + hist[u] == Cum(hist, u) == 0
    ensures Summary(hist, total, score, u + 1, OtsuStep(hist, total, score, p, u))
  {
    assert !Stops(hist, total, u) && !Scored(hist, total, u);
    assert ClassSum(hist, u + 1) == ClassSum(hist, u);
  }

  /** `break`: the background holds every pixel. */
  lemma StepStop(hist: seq<int>, total: int, score: Scorer, u: nat, p: OtsuState)
    requires u < |hist| && Summary(hist, total, score, u, p) && !p.stopped
    requires p.wB + hist[u] == Cum(hist, u) && Cum(hist, u) != 0 && Cum(hist, u) == total
    ensures Summary(hist, total, score, u + 1, OtsuStep(hist, total, score, p, u))
  {
    assert Stops(hist, total, u) && !Scored(hist, total, u);
  }

  /** A scored candidate: its variance replaces the best only when larger. */
  lemma StepScore(hist: seq<int>, total: int, score: Scorer, u: nat, p: OtsuState)
    requires u < |hist| && Summary(hist, total, score, u, p) && !p.stopped
    requires p.wB + hist[u] == Cum(hist, u) && Cum(hist, u) != 0 && Cum(hist, u) != total
    ensures Summary(hist, total, score, u + 1, OtsuStep(hist, total, score, p, u))
  {
    assert forall i :: 0 <= i < u ==> !Stops(hist, total, i);
    assert Scored(hist, total, u) && !Stops(hist, total, u);
    assert ClassSum(hist, u + 1) == p.sumB + (u * hist[u]) as real;
    assert Score(hist, total, score, u) == score(Cum(hist, u), total - Cum(hist, u), p.sumB + (u * hist[u]) as real);
  }

  lemma {:induction false} OtsuRunState(hist: seq<int>, total: int, score: Scorer, t: nat)
    requires t <= |hist|
    ensures Summary(hist, total, score, t, OtsuRun(hist, total, score, t))
  {
    if t > 0 {
      OtsuRunState(hist, total, score, t - 1);
      var p := OtsuRun(hist, total, score, t - 1);
      if p.stopped {
        StepStopped(hist, total, score, t - 1, p);
      } else {
        StepRunning(hist, total, score, t - 1, p);
      }
    }
  }

  /** The loop returns the first candidate of largest positive score, or 0
      when no candidate scores above 0. */
  lemma OtsuChoice(hist: seq<int>, total: int, score: Scorer)
    requires |hist| == 256
    ensures var r := OtsuPick(hist, total, score);
      && 0 <= r < 256
      && ((forall i :: 0 <= i < 256 && Scored(hist, total, i) ==> Score(hist, total, score, i) <= 0.0) ==> r == 0)
      && ((exists i :: 0 <= i < 256 && Scored(hist, total, i) && Score(hist, total, score, i) > 0.0) ==>
            && Scored(hist, total, r)
            && (forall i :: 0 <= i < 256 && Scored(hist, total, i) ==> Score(hist, total, score, i) <= Score(hist, total, score, r))
            && (forall i :: 0 <= i < r && Scored(hist, total, i) ==> Score(hist, total, score, i) < Score(hist, total, score, r)))
  {
    OtsuRunState(hist, total, score, 256);
  }

  /** Once stopped, the accumulators no longer change. */
  lemma {:induction false} OtsuRunStopped(hist: seq<int>, total: int, score: Scorer, t: nat, t': nat)
    requires t <= t' <= |hist| && OtsuRun(hist, total, score, t).stopped
    ensures OtsuRun(hist, total, score, t') == OtsuRun(hist, total, score, t)
  {
    if t < t' {
      OtsuRunStopped(hist, total, score, t, t' - 1);
    }
  }

  /** The loops of `calculateOtsuThreshold` after the histogram total: the
      weighted sum, then the candidate scan with its `continue` and
      `break`. */
  method OtsuSearch(hist: seq<int>, total: int, wrapped: bool) returns (threshold: int)
    requires |hist| == 256
    ensures threshold == OtsuThreshold(hist, total, wrapped)
  {
    var sum := 0.0;
    var i := 0;
    while i < 256
      invariant 0 <= i <= 256 && sum == WeightedSum(hist, i)
    {
      sum := sum + (i * hist[i]) as real;
      i := i + 1;
    }
    var sumB := 0.0;
    var wB := 0;
    var varMax := 0.0;
    threshold := 0;
    var t := 0;
    while t < 256
      invariant 0 <= t <= 256
      invariant OtsuRun(hist, total, OtsuScorer(hist, wrapped), t) == OtsuState(wB, sumB, varMax, threshold, false)
    {
      wB := wB + hist[t];
      if wB == 0 {
        t := t + 1;
        continue;
      }
      var wF := total - wB;
      if wF == 0 {
        OtsuRunStopped(hist, total, OtsuScorer(hist, wrapped), t + 1, 256);
        break;
      }
      sumB := sumB + (t * hist[t]) as real;
      var varBetween := Variance(wB, wF, sumB, sum, wrapped);
      if varBetween > varMax {
        varMax := varBetween;
        threshold := t;
      }
      t := t + 1;
    }
  }

  // ---------------------------------------------------------------------
  // Histograms with one or two occupied bins

  /** At most one bin is non-zero. */
  predicate AtMostOneBin(hist: seq<int>)
  {
    forall i, j :: 0 <= i < j < |hist| ==> hist[i] == 0 || hist[j] == 0
  }

  lemma {:induction false} SumZeros(a: seq<int>)
    requires forall i :: 0 <= i < |a| ==> a[i] == 0
    ensures Sum(a) == 0
  {
    if |a| > 0 {
      SumZeros(a[..|a| - 1]);
    }
  }

  /** A sequence that is zero except at `b` sums to its entry at `b`. */
  lemma {:induction false} SumSparse(a: seq<int>, b: nat)
    requires b < |a| && forall i :: 0 <= i < |a| && i != b ==> a[i] == 0
    ensures Sum(a) == a[b]
  {
    var n := |a| - 1;
    if b == n {
      SumZeros(a[..n]);
    } else {
      SumSparse(a[..n], b);
    }
  }

  /** With at most one occupied bin every background weight is 0 or the
      whole histogram. */
  lemma CumOneBin(hist: seq<int>, t: nat)
    requires t < |hist| && AtMostOneBin(hist)
    ensures Cum(hist, t) == 0 || Cum(hist, t) == Sum(hist)
  {
    if exists b :: 0 <= b < |hist| && hist[b] != 0 {
      var b :| 0 <= b < |hist| && hist[b] != 0;
      SumSparse(hist, b);
      if b <= t {
        SumSparse(hist[..t + 1], b);
      } else {
        SumZeros(hist[..t + 1]);
      }
    } else {
      SumZeros(hist[..t + 1]);
    }
  }

  /** A histogram with at most one occupied bin (an image of one intensity,
      or an empty one) gets threshold 0: the loop stops at the occupied bin
      before scoring anything. */
  lemma OtsuSingleBin(hist: seq<int>, score: Scorer)
    requires |hist| == 256 && AtMostOneBin(hist)
    ensures OtsuPick(hist, Sum(hist), score) == 0
  {
    forall i | 0 <= i < 256
      ensures !Scored(hist, Sum(hist), i)
    {
      CumOneBin(hist, i);
    }
    OtsuChoice(hist, Sum(hist), score);
  }

  /** Prefix sums of non-negative counts lie between 0 and the total. */
  lemma {:induction false} PrefixWithin(a: seq<int>, n: nat)
    requires n <= |a| && forall i :: 0 <= i < |a| ==> a[i] >= 0
    ensures 0 <= Sum(a[..n]) <= Sum(a)
    decreases |a| - n
  {
    if n < |a| {
      PrefixWithin(a, n + 1);
      SumPrefixStep(a, n);
    } else {
      assert a[..n] == a;
    }
    if n > 0 {
      SumNonNegative(a[..n]);
    }
  }

  lemma {:induction false} SumNonNegative(a: seq<int>)
    requires forall i :: 0 <= i < |a| ==> a[i] >= 0
    ensures Sum(a) >= 0
  {
    if |a| > 0 {
      SumNonNegative(a[..|a| - 1]);
    }
  }

  /** For a histogram of counts, a non-zero threshold splits the pixels into
      two non-empty classes: `wB > 0` and `wF > 0` there. */
  lemma OtsuClassesNonEmpty(hist: seq<int>, score: Scorer)
    requires |hist| == 256 && forall i :: 0 <= i < 256 ==> hist[i] >= 0
    ensures var r := OtsuPick(hist, Sum(hist), score);
      r != 0 ==> 0 < Cum(hist, r) < Sum(hist)
  {
    var r := OtsuPick(hist, Sum(hist), score);
    OtsuRunState(hist, Sum(hist), score, 256);
    if r != 0 {
      PrefixWithin(hist, r + 1);
    }
  }

  /** Exactly two occupied bins `a < b` with `p` and `q` pixels. */
  predicate TwoBins(hist: seq<int>, a: nat, b: nat, p: int, q: int)
  {
    && a < b < |hist| && p > 0 && q > 0
    && hist[a] == p && hist[b] == q
    && forall i :: 0 <= i < |hist| && i != a && i != b ==> hist[i] == 0
  }

  lemma {:induction false} TwoBinSums(hist: seq<int>, a: nat, b: nat, p: int, q: int, n: nat)
    requires TwoBins(hist, a, b, p, q) && n <= |hist|
    ensures Sum(hist[..n]) == (if a < n then p else 0) + (if b < n then q else 0)
    ensures WeightedSum(hist, n) == ((if a < n then a * p else 0) + (if b < n then b * q else 0)) as real
    ensures n <= b ==> ClassSum(hist, n) == (if a < n then a * p else 0) as real
  {
    if n > 0 {
      TwoBinSums(hist, a, b, p, q, n - 1);
      SumPrefixStep(hist, n - 1);
    }
  }

  /** On a two-intensity histogram the candidates `a..b-1` are scored, all
      alike, and the loop stops at `b`: the threshold is `a` when that score
      is positive and 0 otherwise. */
  lemma OtsuTwoBins(hist: seq<int>, a: nat, b: nat, p: int, q: int, score: Scorer)
    requires |hist| == 256 && TwoBins(hist, a, b, p, q)
    ensures OtsuPick(hist, p + q, score) ==
      if score(p, q, (a * p) as real) > 0.0 then a else 0
  {
    var total := p + q;
    var v := score(p, q, (a * p) as real);
    TwoBinSums(hist, a, b, p, q, 256);
    forall i | 0 <= i < 256
      ensures Scored(hist, total, i) <==> a <= i < b
      ensures a <= i < b ==> Score(hist, total, score, i) == v
    {
      TwoBinSums(hist, a, b, p, q, i + 1);
      if i >= b {
        TwoBinSums(hist, a, b, p, q, b + 1);
        assert Stops(hist, total, b);
      }
      if i < b {
        forall j | 0 <= j < i
          ensures !Stops(hist, total, j)
        {
          TwoBinSums(hist, a, b, p, q, j + 1);
        }
      }
    }
    OtsuChoice(hist, total, score);
    var r := OtsuPick(hist, total, score);
    if v > 0.0 {
      assert Scored(hist, total, a) && Score(hist, total, score, a) > 0.0;
    }
  }

  lemma MeanOf(k: int, n: int)
    requires n != 0
    ensures (k * n) as real / n as real == k as real
  {
    assert (k * n) as real == k as real * n as real;
  }

  lemma SquarePositive(d: real)
    requires d != 0.0
    ensures d * d > 0.0
  {
    if d < 0.0 {
      assert (-d) * (-d) == d * d;
    }
  }

  lemma SquareNonNegative(d: real)
    ensures d * d >= 0.0
  {
    if d != 0.0 {
      SquarePositive(d);
    }
  }

  /** With the exact weight product, bins `a < b` separate: the means are
      `a` and `b` and the score `p q (a - b)^2` is positive. */
  lemma TwoBinScorePositive(a: nat, b: nat, p: int, q: int)
    requires a < b && p > 0 && q > 0
    ensures Variance(p, q, (a * p) as real, (a * p + b * q) as real, false) > 0.0
  {
    MeanOf(a, p);
    MeanOf(b, q);
    assert (a * p + b * q) as real - (a * p) as real == (b * q) as real;
    var d := a as real - b as real;
    SquarePositive(d);
    assert (p * q) as real > 0.0 by {
      assert p * q > 0;
    }
    assert Variance(p, q, (a * p) as real, (a * p + b * q) as real, false) == (p * q) as real * d * d;
    PositiveProduct((p * q) as real, d * d);
  }

  lemma PositiveProduct(x: real, y: real)
    requires x > 0.0 && y > 0.0
    ensures x * y > 0.0
  {
  }

  lemma NegativeProduct(x: real, y: real)
    requires x < 0.0 && y >= 0.0
    ensures x * y <= 0.0
  {
  }

  /** When the 32-bit weight product wraps to a negative value the score is
      never positive. */
  lemma WrappedScoreNonPositive(wB: int, wF: int, sumB: real, sum: real)
    requires wB != 0 && wF != 0 && Wrap32(wB * wF) < 0
    ensures Variance(wB, wF, sumB, sum, true) <= 0.0
  {
    var d := sumB / wB as real - (sum - sumB) / wF as real;
    SquareNonNegative(d);
    NegativeProduct(Wrap32(wB * wF) as real, d * d);
    assert Variance(wB, wF, sumB, sum, true) == Wrap32(wB * wF) as real * (d * d);
  }

  /** 100000 pixels split evenly between intensities 10 and 200. */
  function OverflowHistogram(): (h: seq<int>)
    ensures |h| == 256 && TwoBins(h, 10, 200, 50000, 50000)
  {
    seq(256, i => if i == 10 || i == 200 then 50000 else 0)
  }

  /** The 32-bit product `wB * wF = 50000 * 50000` wraps to -1794967296, so
      the wrapped loop never finds a positive score and returns 0, while
      the exact product gives the separating threshold 10. */
  lemma OtsuProductOverflows()
    ensures OtsuThreshold(OverflowHistogram(), 100000, true) == 0
    ensures OtsuThreshold(OverflowHistogram(), 100000, false) == 10
  {
    var h := OverflowHistogram();
    assert Wrap32(50000 * 50000) == -1794967296;
    WrappedScoreNonPositive(50000, 50000, (10 * 50000) as real, (10 * 50000 + 200 * 50000) as real);
    TwoBinSums(h, 10, 200, 50000, 50000, 256);
    OtsuTwoBins(h, 10, 200, 50000, 50000, OtsuScorer(h, true));
    TwoBinScorePositive(10, 200, 50000, 50000);
    OtsuTwoBins(h, 10, 200, 50000, 50000, OtsuScorer(h, false));
  }
}
