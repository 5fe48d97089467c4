/** Global thresholding (lab2/src/ThresholdProcessing.cpp): the intensity
    histogram, Otsu's and the triangle threshold computed from it, and the
    binary and three-level thresholds that write one value to every channel
    of a pixel. */
module ThresholdProcessing {
  import opened Pixels
  import opened Images
  import opened Distribution
  import opened Otsu
  import PointOperations

  /** Per pixel, what every routine of this file thresholds: the luminance
      of `getPixelRGB` for three or more channels, otherwise channel 0. */
  function IntensityOf(r: Raster, luma: Luma): (int, int) -> Byte
    requires r.Valid()
  {
    PointOperations.IntensityAt(r, luma)
  }

  // ---------------------------------------------------------------------
  // computeHistogram

  /** The histogram of the intensities of `r`. */
  function IntensityHistogram(r: Raster, luma: Luma): seq<int>
    requires r.Valid()
  {
    Hist(Scan(r.width, r.height, IntensityOf(r, luma)))
  }

  /** `computeHistogram`: one increment of the intensity's bin per pixel. */
  method ComputeHistogram(img: Image, luma: Luma) returns (hist: seq<int>)
    requires img.Valid()
    ensures hist == IntensityHistogram(img.View(), luma)
  {
    hist := Tally(img.width, img.height, IntensityOf(img.View(), luma));
  }

  /** The 256 bins count every pixel once; below three channels they are
      the histogram of channel 0. */
  lemma HistogramTotal(r: Raster, luma: Luma)
    requires r.Valid()
    ensures |IntensityHistogram(r, luma)| == 256
    ensures Sum(IntensityHistogram(r, luma)) == r.width * r.height
    ensures r.channels < 3 ==> IntensityHistogram(r, luma) == Hist(Column(r, 0))
  {
    ScanHistTotal(r.width, r.height, IntensityOf(r, luma));
    if r.channels < 3 {
      assert forall i :: 0 <= i < r.width * r.height ==>
        Scan(r.width, r.height, IntensityOf(r, luma))[i] == Column(r, 0)[i];
      assert Scan(r.width, r.height, IntensityOf(r, luma)) == Column(r, 0);
    }
  }

  // ---------------------------------------------------------------------
  // calculateOtsuThreshold / otsuThreshold

  /** The Otsu threshold of `r`'s intensity histogram over `w * h` pixels,
      with the weight product `wB * wF` taken exactly. */
  function OtsuLevel(r: Raster, luma: Luma): int
    requires r.Valid()
  {
    Otsu.OtsuThreshold(IntensityHistogram(r, luma), r.width * r.height, false)
  }

  /** `calculateOtsuThreshold`: the histogram, `totalPixels = w * h`, and
      the candidate scan of `Otsu`. */
  method CalculateOtsuThreshold(img: Image, luma: Luma) returns (threshold: Byte)
    requires img.Valid()
    ensures threshold == OtsuLevel(img.View(), luma)
  {
    var hist := ComputeHistogram(img, luma);
    var totalPixels := img.width * img.height;
    var t := OtsuSearch(hist, totalPixels, false);
    threshold := t;
  }

  /** The threshold is a byte, and it is 0 when at most one intensity
      occurs (for instance on an all-128 image). Otherwise, when it is not
      0, both classes it splits the pixels into are non-empty. */
  lemma OtsuLevelProperties(r: Raster, luma: Luma)
    requires r.Valid()
    ensures 0 <= OtsuLevel(r, luma) < 256
    ensures AtMostOneBin(IntensityHistogram(r, luma)) ==> OtsuLevel(r, luma) == 0
    ensures var hist := IntensityHistogram(r, luma);
      OtsuLevel(r, luma) != 0 ==> 0 < Cum(hist, OtsuLevel(r, luma)) < r.width * r.height
  {
    var hist := IntensityHistogram(r, luma);
    HistogramTotal(r, luma);
    HistNonNegative(Scan(r.width, r.height, IntensityOf(r, luma)));
    if AtMostOneBin(hist) {
      OtsuSingleBin(hist, OtsuScorer(hist, false));
    }
    OtsuClassesNonEmpty(hist, OtsuScorer(hist, false));
  }

  lemma HistNonNegative(s: seq<Byte>)
    ensures forall i :: 0 <= i < 256 ==> Hist(s)[i] >= 0
  {
  }

  /** The image `otsuThreshold` returns. */
  function OtsuThresholded(r: Raster, luma: Luma): Raster
    requires r.Valid()
  {
    FixedThresholded(r, luma, OtsuLevel(r, luma))
  }

  /** `otsuThreshold`: the fixed threshold at Otsu's level. */
  method OtsuThreshold(img: Image, luma: Luma) returns (result: Image)
    requires img.Valid()
    ensures fresh(result) && result.Valid() && result.View() == OtsuThresholded(img.View(), luma)
  {
    var threshold := CalculateOtsuThreshold(img, luma);
    result := FixedThreshold(img, threshold, luma);
  }

  // ---------------------------------------------------------------------
  // calculateTriangleThreshold / triangleThreshold

  /** The peak search over bins `0..n-1`: a later bin replaces the peak
      only when it is strictly larger. */
  function Peak(hist: seq<int>, n: nat): (p: nat)
    requires 1 <= n <= |hist|
    ensures p < n
  {
    if n == 1 then 0
    else
      var p := Peak(hist, n - 1);
      if hist[n - 1] > hist[p] then n - 1 else p
  }

  /** The peak is the first bin of maximal count. */
  lemma {:induction false} PeakIsFirstMaximum(hist: seq<int>, n: nat)
    requires 1 <= n <= |hist|
    ensures forall j :: 0 <= j < n ==> hist[j] <= hist[Peak(hist, n)]
    ensures forall j :: 0 <= j < Peak(hist, n) ==> hist[j] < hist[Peak(hist, n)]
  {
    if n > 1 {
      PeakIsFirstMaximum(hist, n - 1);
    }
  }

  /** The scan for `first`: the first occupied bin from `i` up, 0 if none. */
  function FirstOccupied(hist: seq<int>, i: nat): Byte
    requires |hist| == 256 && i <= 256
    decreases 256 - i
  {
    if i == 256 then 0
    else if hist[i] > 0 then i
    else FirstOccupied(hist, i + 1)
  }

  /** The scan for `last`: the first occupied bin from `i` down, 255 if
      none. */
  function LastOccupied(hist: seq<int>, i: int): Byte
    requires |hist| == 256 && -1 <= i <= 255
    decreases i + 1
  {
    if i < 0 then 255
    else if hist[i] > 0 then i
    else LastOccupied(hist, i - 1)
  }

  /** `first` is the lowest occupied bin, and 0 for an empty histogram. */
  lemma {:induction false} FirstOccupiedIsFirst(hist: seq<int>, i: nat)
    requires |hist| == 256 && i <= 256
    ensures var f := FirstOccupied(hist, i);
      || (i <= f && hist[f] > 0 && forall j :: i <= j < f ==> hist[j] <= 0)
      || (f == 0 && forall j :: i <= j < 256 ==> hist[j] <= 0)
    decreases 256 - i
  {
    if i < 256 && hist[i] <= 0 {
      FirstOccupiedIsFirst(hist, i + 1);
    }
  }

  /** `last` is the highest occupied bin, and 255 for an empty histogram. */
  lemma {:induction false} LastOccupiedIsLast(hist: seq<int>, i: int)
    requires |hist| == 256 && -1 <= i <= 255
    ensures var l := LastOccupied(hist, i);
      || (l <= i && hist[l] > 0 && forall j :: l < j <= i ==> hist[j] <= 0)
      || (l == 255 && forall j :: 0 <= j <= i ==> hist[j] <= 0)
    decreases i + 1
  {
    if i >= 0 && hist[i] <= 0 {
      LastOccupiedIsLast(hist, i - 1);
    }
  }

  /** The numerator of the distance of bin `i` from the line through
      `(lineStart, hist[lineStart])` and `(lineEnd, maxVal)`. */
  function Numerator(hist: seq<int>, lineStart: nat, lineEnd: int, maxVal: int, i: nat): int
    requires lineStart < |hist| && i < |hist|
  {
    (lineEnd - lineStart) * hist[i] - (maxVal - hist[lineStart]) * (i - lineStart)
      - (lineEnd - lineStart) * hist[lineStart]
  }

  /** The radicand of the denominator, `(lineEnd - lineStart)^2 +
      (maxVal - hist[lineStart])^2`. With `wrapped` it is the 32-bit `int`
      the source computes before converting to `float`; two's-complement
      wrap-around commutes with `+` and `*`, so wrapping the exact value
      once is wrapping every step. */
  function Radicand(hist: seq<int>, lineStart: nat, lineEnd: int, maxVal: int, wrapped: bool): (q: int)
    requires lineStart < |hist|
    ensures !wrapped ==> q >= 0
  {
    var a, b := lineEnd - lineStart, maxVal - hist[lineStart];
    if wrapped then Wrap32(a * a + b * b) else a * a + b * b
  }

  /** The distance of bin `i` as the loop compares it. The division by
      `sqrt(radicand)` is the same for every bin of one search, so for a
      positive radicand the order of distances is that of the numerators'
      absolute values. The square root of a negative radicand is NaN, and
      `distance > maxDistance` never holds for NaN: every bin scores 0. For a
      zero radicand, `0 / 0` is NaN and any other `|n| / 0` is infinite, so
      only off-line bins count, all equally: they score 1. With `wrapped`
      the numerator and the radicand are the source's 32-bit `int`s. */
  function Distance(hist: seq<int>, lineStart: nat, lineEnd: int, maxVal: int, i: nat, wrapped: bool): (d: int)
    requires lineStart < |hist| && i < |hist|
    ensures d >= 0
  {
    var n := if wrapped then Wrap32(Numerator(hist, lineStart, lineEnd, maxVal, i))
      else Numerator(hist, lineStart, lineEnd, maxVal, i);
    var q := Radicand(hist, lineStart, lineEnd, maxVal, wrapped);
    if q < 0 then 0
    else if q == 0 then (if n == 0 then 0 else 1)
    else if n < 0 then -n else n
  }

  /** `(threshold, maxDistance)` after the candidates `lo..i-1`: a candidate
      replaces the current threshold only when strictly farther. */
  function Farthest(hist: seq<int>, lineStart: nat, lineEnd: int, maxVal: int, lo: nat, i: nat, wrapped: bool): (int, int)
    requires lineStart < |hist| && lo <= i <= |hist|
    decreases i
  {
    if i == lo then (lineEnd, 0)
    else
      var s := Farthest(hist, lineStart, lineEnd, maxVal, lo, i - 1, wrapped);
      var d := Distance(hist, lineStart, lineEnd, maxVal, i - 1, wrapped);
      if d > s.1 then (i - 1, d) else s
  }

  /** The search keeps the first candidate of largest positive distance,
      and `lineEnd` when every distance is zero. */
  lemma {:induction false} FarthestIsFirstMaximum(hist: seq<int>, lineStart: nat, lineEnd: int, maxVal: int, lo: nat, i: nat, wrapped: bool)
    requires lineStart < |hist| && lo <= i <= |hist|
    ensures var s := Farthest(hist, lineStart, lineEnd, maxVal, lo, i, wrapped);
      && 0 <= s.1
      && (forall j :: lo <= j < i ==> Distance(hist, lineStart, lineEnd, maxVal, j, wrapped) <= s.1)
      && (s.1 == 0 ==> s.0 == lineEnd)
      && (s.1 > 0 ==>
            && lo <= s.0 < i && Distance(hist, lineStart, lineEnd, maxVal, s.0, wrapped) == s.1
            && forall j :: lo <= j < s.0 ==> Distance(hist, lineStart, lineEnd, maxVal, j, wrapped) < s.1)
    decreases i
  {
    if i > lo {
      FarthestIsFirstMaximum(hist, lineStart, lineEnd, maxVal, lo, i - 1, wrapped);
    }
  }

  /** The triangle's end at the far side of the peak. */
  function LineStart(hist: seq<int>): Byte
    requires |hist| == 256
  {
    var maxIdx := Peak(hist, 256);
    var first, last := FirstOccupied(hist, 0), LastOccupied(hist, 255);
    if maxIdx - first < last - maxIdx then last else first
  }

  /** The candidate the distance loop keeps between `lineStart` and the
      peak `lineEnd`. */
  function Search(hist: seq<int>, lineStart: nat, lineEnd: nat, wrapped: bool): (t: int)
    requires lineStart < |hist| && lineEnd < |hist|
  {
    Farthest(hist, lineStart, lineEnd, hist[lineEnd], Min(lineStart, lineEnd), Max(lineStart, lineEnd) + 1, wrapped).0
  }

  /** The candidate lies between the line's two ends and is at largest
      distance from the line: the first such bin when that distance is
      positive, and `lineEnd` when no bin lies off the line. */
  lemma SearchBetween(hist: seq<int>, lineStart: nat, lineEnd: nat, wrapped: bool)
    requires lineStart < |hist| && lineEnd < |hist|
    ensures var lo, hi, t := Min(lineStart, lineEnd), Max(lineStart, lineEnd), Search(hist, lineStart, lineEnd, wrapped);
      var maxVal := hist[lineEnd];
      && lo <= t <= hi
      && (forall j :: lo <= j <= hi ==>
            Distance(hist, lineStart, lineEnd, maxVal, j, wrapped) <= Distance(hist, lineStart, lineEnd, maxVal, t, wrapped))
      && (Distance(hist, lineStart, lineEnd, maxVal, t, wrapped) > 0 ==> forall j :: lo <= j < t ==>
            Distance(hist, lineStart, lineEnd, maxVal, j, wrapped) < Distance(hist, lineStart, lineEnd, maxVal, t, wrapped))
      && ((forall j :: lo <= j <= hi ==> Distance(hist, lineStart, lineEnd, maxVal, j, wrapped) == 0) ==> t == lineEnd)
  {
    var lo, hi := Min(lineStart, lineEnd), Max(lineStart, lineEnd);
    FarthestIsFirstMaximum(hist, lineStart, lineEnd, hist[lineEnd], lo, hi + 1, wrapped);
    var s := Farthest(hist, lineStart, lineEnd, hist[lineEnd], lo, hi + 1, wrapped);
    if s.1 == 0 {
      assert lo <= lineEnd <= hi;
    } else {
      assert Distance(hist, lineStart, lineEnd, hist[lineEnd], s.0, wrapped) != 0;
    }
  }

  /** While the numerators of the candidates `lo..i-1` and the radicand fit
      in 32-bit `int`, the wrapped search keeps what the exact one keeps. */
  lemma {:induction false} FarthestAgrees(hist: seq<int>, lineStart: nat, lineEnd: int, maxVal: int, lo: nat, i: nat)
    requires lineStart < |hist| && lo <= i <= |hist|
    requires Radicand(hist, lineStart, lineEnd, maxVal, false) < 0x8000_0000
    requires forall j :: lo <= j < i ==> -0x8000_0000 <= Numerator(hist, lineStart, lineEnd, maxVal, j) < 0x8000_0000
    ensures Farthest(hist, lineStart, lineEnd, maxVal, lo, i, true) == Farthest(hist, lineStart, lineEnd, maxVal, lo, i, false)
    decreases i
  {
    if i > lo {
      FarthestAgrees(hist, lineStart, lineEnd, maxVal, lo, i - 1);
      assert Distance(hist, lineStart, lineEnd, maxVal, i - 1, true) == Distance(hist, lineStart, lineEnd, maxVal, i - 1, false);
    }
  }

  /** The threshold `calculateTriangleThreshold` returns for `hist`: the
      search from the far end of the longer tail to the peak, with the
      distance's `int` arithmetic wrapped as written or taken exactly. */
  function TriangleLevel(hist: seq<int>, wrapped: bool): (t: int)
    requires |hist| == 256
    ensures 0 <= t < 256
  {
    SearchBetween(hist, LineStart(hist), Peak(hist, 256), wrapped);
    Search(hist, LineStart(hist), Peak(hist, 256), wrapped)
  }

  /** Without overflow in the distance loop, the source's threshold is the
      exact one. */
  lemma TriangleAgrees(hist: seq<int>)
    requires |hist| == 256
    requires Radicand(hist, LineStart(hist), Peak(hist, 256), hist[Peak(hist, 256)], false) < 0x8000_0000
    requires forall j :: 0 <= j < 256 ==>
      -0x8000_0000 <= Numerator(hist, LineStart(hist), Peak(hist, 256), hist[Peak(hist, 256)], j) < 0x8000_0000
    ensures TriangleLevel(hist, true) == TriangleLevel(hist, false)
  {
    var s, e := LineStart(hist), Peak(hist, 256);
    FarthestAgrees(hist, s, e, hist[e], Min(s, e), Max(s, e) + 1);
  }

  /** One pixel at intensities 0 and 150 and 50000 at 100: the peak is 100
      and the line starts at 0. */
  function SkewedHistogram(): (h: seq<int>)
    ensures |h| == 256
  {
    seq(256, i => if i == 0 || i == 150 then 1 else if i == 100 then 50000 else 0)
  }

  /** The peak of the skewed histogram is 100, and the longer tail ends
      at 0, where the line starts. */
  lemma SkewedLine()
    ensures Peak(SkewedHistogram(), 256) == 100 && LineStart(SkewedHistogram()) == 0
  {
    var h := SkewedHistogram();
    PeakIsFirstMaximum(h, 256);
    assert h[100] == 50000;
    LastOccupiedIsLast(h, 255);
    assert h[150] > 0;
  }

  /** With the wrapped radicand every bin scores 0, so the peak is kept. */
  lemma SkewedWrapped()
    ensures Search(SkewedHistogram(), 0, 100, true) == 100
  {
    var h := SkewedHistogram();
    assert Wrap32(100 * 100 + 49999 * 49999) == -1795057295;
    assert Radicand(h, 0, 100, 50000, true) < 0;
    SearchBetween(h, 0, 100, true);
  }

  /** With exact arithmetic, bin `j` between 1 and 98 lies at numerator
      `-(49999 j + 100)`, and the two ends of the line lie on it. */
  lemma SkewedDistance(j: nat)
    requires j <= 100
    ensures j == 99 ==> Distance(SkewedHistogram(), 0, 100, 50000, j, false) == 4950001
    ensures j != 99 ==> Distance(SkewedHistogram(), 0, 100, 50000, j, false) < 4950001
  {
    var h := SkewedHistogram();
    assert Radicand(h, 0, 100, 50000, false) == 2499910001;
    if 1 <= j <= 99 {
      assert Numerator(h, 0, 100, 50000, j) == -49999 * j - 100;
    } else {
      assert Numerator(h, 0, 100, 50000, j) == 0;
    }
  }

  /** With the exact radicand, bin 99 is the farthest from the line. */
  lemma SkewedExact()
    ensures Search(SkewedHistogram(), 0, 100, false) == 99
  {
    var h := SkewedHistogram();
    SearchBetween(h, 0, 100, false);
    var t := Search(h, 0, 100, false);
    SkewedDistance(99);
    SkewedDistance(t);
  }

  /** The radicand `100 * 100 + 49999 * 49999 = 2499910001` wraps to
      -1795057295 in 32-bit `int`, so every distance is NaN and the source
      returns the peak 100; with the exact radicand the farthest bin from
      the line is 99. */
  lemma TriangleRadicandOverflows()
    ensures TriangleLevel(SkewedHistogram(), true) == 100
    ensures TriangleLevel(SkewedHistogram(), false) == 99
  {
    SkewedLine();
    SkewedWrapped();
    SkewedExact();
  }

  /** The peak loop. */
  method FindPeak(hist: seq<int>) returns (maxIdx: int, maxVal: int)
    requires |hist| == 256
    ensures maxIdx == Peak(hist, 256) && maxVal == hist[maxIdx]
  {
    maxIdx := 0;
    maxVal := hist[0];
    for i := 1 to 256
      invariant maxIdx == Peak(hist, i) && maxVal == hist[maxIdx]
    {
      if hist[i] > maxVal {
        maxVal := hist[i];
        maxIdx := i;
      }
    }
  }

  /** The loops for `first` and `last`, each with its early `break`. */
  method FindOccupied(hist: seq<int>) returns (first: int, last: int)
    requires |hist| == 256
    ensures first == FirstOccupied(hist, 0) && last == LastOccupied(hist, 255)
  {
    first, last := 0, 255;
    var i := 0;
    while i < 256
      invariant 0 <= i <= 256 && first == 0
      invariant FirstOccupied(hist, 0) == FirstOccupied(hist, i)
    {
      if hist[i] > 0 {
        first := i;
        break;
      }
      i := i + 1;
    }
    i := 255;
    while i >= 0
      invariant -1 <= i <= 255 && last == 255
      invariant LastOccupied(hist, 255) == LastOccupied(hist, i)
    {
      if hist[i] > 0 {
        last := i;
        break;
      }
      i := i - 1;
    }
  }

  /** The distance loop from `min(lineStart, lineEnd)` to
      `max(lineStart, lineEnd)` inclusive. */
  method FarthestBin(hist: seq<int>, lineStart: nat, lineEnd: nat, maxVal: int, wrapped: bool) returns (threshold: int)
    requires lineStart < |hist| && lineEnd < |hist|
    ensures threshold == Farthest(hist, lineStart, lineEnd, maxVal, Min(lineStart, lineEnd), Max(lineStart, lineEnd) + 1, wrapped).0
  {
    var lo, hi := Min(lineStart, lineEnd), Max(lineStart, lineEnd);
    var maxDistance := 0;
    threshold := lineEnd;
    var i := lo;
    while i <= hi
      invariant lo <= i <= hi + 1
      invariant threshold == Farthest(hist, lineStart, lineEnd, maxVal, lo, i, wrapped).0
      invariant maxDistance == Farthest(hist, lineStart, lineEnd, maxVal, lo, i, wrapped).1
    {
      var distance := Distance(hist, lineStart, lineEnd, maxVal, i, wrapped);
      if distance > maxDistance {
        maxDistance := distance;
        threshold := i;
      }
      i := i + 1;
    }
  }

  /** `calculateTriangleThreshold`: the histogram, the peak, the first and
      last occupied bins, the side of the longer tail, and the search. */
  method CalculateTriangleThreshold(img: Image, luma: Luma) returns (threshold: Byte)
    requires img.Valid()
    ensures threshold == TriangleLevel(IntensityHistogram(img.View(), luma), false)
  {
    var hist := ComputeHistogram(img, luma);
    var maxIdx, maxVal := FindPeak(hist);
    var first, last := FindOccupied(hist);
    var invertedTriangle := (maxIdx - first) < (last - maxIdx);
    var lineStart := if invertedTriangle then last else first;
    assert lineStart == LineStart(hist);
    var t := FarthestBin(hist, lineStart, maxIdx, maxVal, false);
    SearchBetween(hist, lineStart, maxIdx, false);
    threshold := t;
  }

  /** The image `triangleThreshold` returns. */
  function TriangleThresholded(r: Raster, luma: Luma): Raster
    requires r.Valid()
  {
    FixedThresholded(r, luma, TriangleLevel(IntensityHistogram(r, luma), false))
  }

  /** `triangleThreshold`: the fixed threshold at the triangle level. */
  method TriangleThreshold(img: Image, luma: Luma) returns (result: Image)
    requires img.Valid()
    ensures fresh(result) && result.Valid() && result.View() == TriangleThresholded(img.View(), luma)
  {
    var threshold := CalculateTriangleThreshold(img, luma);
    result := FixedThreshold(img, threshold, luma);
  }

  // ---------------------------------------------------------------------
  // fixedThreshold / doubleThreshold

  function Binary(v: Byte, t: int): Byte
  {
    if v >= t then 255 else 0
  }

  function BinaryPixel(r: Raster, luma: Luma, t: int): (int, int, int) -> Byte
    requires r.Valid()
  {
    (x, y, ch) => Binary(PointOperations.Intensity(r, luma, x, y), t)
  }

  /** The image `fixedThreshold` returns: every channel of a pixel set to
      the pixel's binarised intensity. */
  function FixedThresholded(r: Raster, luma: Luma, t: int): Raster
    requires r.Valid()
  {
    PointOperations.Rewritten(r, r.channels, BinaryPixel(r, luma, t))
  }

  /** `fixedThreshold`: the clone with all channels of every pixel
      rewritten. */
  method FixedThreshold(img: Image, threshold: Byte, luma: Luma) returns (result: Image)
    requires img.Valid()
    ensures fresh(result) && result.Valid() && result.View() == FixedThresholded(img.View(), luma, threshold)
  {
    result := PointOperations.RewriteChannels(img, img.channels, BinaryPixel(img.View(), luma, threshold));
  }

  /** The result keeps the size and the channel count, and every channel
      of a pixel is 255 exactly when its intensity reaches the threshold
      and 0 otherwise. */
  lemma FixedThresholdedAt(r: Raster, luma: Luma, t: int, x: int, y: int, k: int)
    requires r.Valid() && r.InBounds(x, y) && 0 <= k < r.channels
    ensures var f := FixedThresholded(r, luma, t);
      && SameShape(f, r)
      && (f.At(x, y, k) == 255 <==> PointOperations.Intensity(r, luma, x, y) >= t)
      && (f.At(x, y, k) == 0 <==> PointOperations.Intensity(r, luma, x, y) < t)
  {
    PointOperations.RewrittenAt(r, r.channels, BinaryPixel(r, luma, t), x, y, k);
  }

  function Ternary(v: Byte, low: int, high: int): Byte
  {
    if v >= high then 255 else if v >= low then 128 else 0
  }

  function TernaryPixel(r: Raster, luma: Luma, low: int, high: int): (int, int, int) -> Byte
    requires r.Valid()
  {
    (x, y, ch) => Ternary(PointOperations.Intensity(r, luma, x, y), low, high)
  }

  /** The image `doubleThreshold` returns. */
  function DoubleThresholded(r: Raster, luma: Luma, low: int, high: int): Raster
    requires r.Valid()
  {
    PointOperations.Rewritten(r, r.channels, TernaryPixel(r, luma, low, high))
  }

  /** `doubleThreshold`: the clone with all channels of every pixel set to
      255, 128 or 0. */
  method DoubleThreshold(img: Image, lowThreshold: Byte, highThreshold: Byte, luma: Luma) returns (result: Image)
    requires img.Valid()
    ensures fresh(result) && result.Valid() && result.View() == DoubleThresholded(img.View(), luma, lowThreshold, highThreshold)
  {
    result := PointOperations.RewriteChannels(img, img.channels, TernaryPixel(img.View(), luma, lowThreshold, highThreshold));
  }

  /** Only 0, 128 and 255 occur: 255 at or above the high threshold, 128
      between the two, 0 below the low one. */
  lemma DoubleThresholdedAt(r: Raster, luma: Luma, low: int, high: int, x: int, y: int, k: int)
    requires r.Valid() && r.InBounds(x, y) && 0 <= k < r.channels
    ensures var u, v := DoubleThresholded(r, luma, low, high).At(x, y, k), PointOperations.Intensity(r, luma, x, y);
      && SameShape(DoubleThresholded(r, luma, low, high), r)
      && (u == 0 || u == 128 || u == 255)
      && (u == 255 <==> v >= high)
      && (u == 128 <==> low <= v < high)
      && (u == 0 <==> v < low && v < high)
  {
    PointOperations.RewrittenAt(r, r.channels, TernaryPixel(r, luma, low, high), x, y, k);
  }

  /** With equal thresholds the middle band is empty and the double
      threshold is the fixed one. */
  lemma DoubleWithEqualThresholds(r: Raster, luma: Luma, t: int)
    requires r.Valid()
    ensures DoubleThresholded(r, luma, t, t) == FixedThresholded(r, luma, t)
  {
    var a, b := DoubleThresholded(r, luma, t, t), FixedThresholded(r, luma, t);
    forall x, y, k | 0 <= x < r.width && 0 <= y < r.height && 0 <= k < r.channels
      ensures a.At(x, y, k) == b.At(x, y, k)
    {
      DoubleThresholdedAt(r, luma, t, t, x, y, k);
      FixedThresholdedAt(r, luma, t, x, y, k);
    }
    Extensionality(a, b);
  }
}
