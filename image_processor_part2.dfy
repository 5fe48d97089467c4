/** The continuation of `ImageProcessor` (lab2/src/ImageProcessorPart2.cpp):
    global thresholds, the local window mean, Sobel and Prewitt edge
    magnitudes, structuring elements and gray-level morphology. */
module ImageProcessorPart2 {
  import opened Pixels
  import opened Images
  import opened Distribution
  import opened Windows
  import opened ImageProcessor
  import opened Otsu

  // ---------------------------------------------------------------------
  // Global thresholds

  /** `calculateOtsuThreshold(histogram)`: the pixel total, then the Otsu
      scan with the float weight product. */
  method CalculateOtsuThreshold(histogram: seq<int>) returns (threshold: int)
    requires |histogram| == 256
    ensures threshold == OtsuThreshold(histogram, Sum(histogram), false)
  {
    var total := 0;
    var i := 0;
    while i < 256
      invariant 0 <= i <= 256 && total == Sum(histogram[..i])
    {
      SumPrefixStep(histogram, i);
      total := total + histogram[i];
      i := i + 1;
    }
    assert histogram[..256] == histogram;
    threshold := OtsuSearch(histogram, total, false);
  }

  /** Channel 0 of `g` binarised at `t`: 255 where the sample is at least
      `t`, 0 elsewhere. */
  function BinaryPlane(g: Raster, t: int): (int, int) -> Byte
    requires g.Valid()
  {
    (x, y) => if g.At(x, y, 0) >= t then 255 else 0
  }

  /** The image `thresholdFixed` returns. */
  function FixedThresholded(img: Raster, luma: Luma, t: int): Raster
    requires img.Valid()
  {
    var g := Grayscale(img, luma);
    WithChannel(g, 0, BinaryPlane(g, t))
  }

  /** `thresholdFixed`: reduce to gray, clone, and rewrite channel 0 of the
      clone as 255 or 0. */
  method ThresholdFixed(img: Image, threshold: Byte, luma: Luma) returns (result: Image)
    requires img.Valid()
    ensures fresh(result) && result.Valid() && result.View() == FixedThresholded(img.View(), luma, threshold)
  {
    var gray: Image;
    if img.channels == 1 {
      gray := img.Clone();
    } else {
      gray := img.ToGrayscale(luma);
    }
    result := gray.Clone();
    WriteChannel(result, 0, BinaryPlane(gray.View(), threshold));
  }

  /** A fixed threshold gives a one-channel image of the same size whose
      pixel is 255 exactly when the gray value reaches the threshold. */
  lemma FixedThresholdedAt(img: Raster, luma: Luma, t: int, x: int, y: int)
    requires img.Valid() && img.InBounds(x, y)
    ensures var f := FixedThresholded(img, luma, t);
      && f.channels == 1 && f.width == img.width && f.height == img.height
      && (f.At(x, y, 0) == 255 <==> Grayscale(img, luma).At(x, y, 0) >= t)
      && (f.At(x, y, 0) == 0 <==> Grayscale(img, luma).At(x, y, 0) < t)
  {
    var g := Grayscale(img, luma);
    WithChannelAt(g, 0, BinaryPlane(g, t), x, y, 0);
  }

  /** The row 0, 85, 170, 255 binarised at 128 is 0, 0, 255, 255. */
  lemma FixedThresholdExample(luma: Luma)
    ensures FixedThresholded(Raster(4, 1, 1, [0, 85, 170, 255]), luma, 128) == Raster(4, 1, 1, [0, 0, 255, 255])
  {
    var r := Raster(4, 1, 1, [0, 85, 170, 255]);
    var e := Raster(4, 1, 1, [0, 0, 255, 255]);
    forall x, y, k | 0 <= x < 4 && 0 <= y < 1 && 0 <= k < 1
      ensures FixedThresholded(r, luma, 128).At(x, y, k) == e.At(x, y, k)
    {
      WithChannelAt(r, 0, BinaryPlane(r, 128), x, y, k);
      assert Idx(4, 1, x, y, k) == x;
    }
    Extensionality(FixedThresholded(r, luma, 128), e);
  }

  /** The image `thresholdOtsu` returns: the gray image binarised at the
      Otsu threshold of its histogram. */
  function OtsuThresholded(img: Raster, luma: Luma): Raster
    requires img.Valid()
  {
    var g := Grayscale(img, luma);
    var hist := Hist(Column(g, 0));
    FixedThresholded(g, luma, OtsuThreshold(hist, Sum(hist), false))
  }

  /** `thresholdOtsu`. */
  method ThresholdOtsu(img: Image, luma: Luma) returns (result: Image)
    requires img.Valid()
    ensures fresh(result) && result.Valid() && result.View() == OtsuThresholded(img.View(), luma)
  {
    var gray: Image;
    if img.channels == 1 {
      gray := img.Clone();
    } else {
      gray := img.ToGrayscale(luma);
    }
    var histogram := CalculateHistogram(gray, 0);
    var threshold := CalculateOtsuThreshold(histogram);
    result := ThresholdFixed(gray, threshold, luma);
  }

  /** An image of a single gray value is thresholded at 0, so it turns all
      white. */
  lemma OtsuSingleIntensity(img: Raster, luma: Luma, x: int, y: int)
    requires img.Valid() && img.InBounds(x, y)
    requires forall x', y' :: 0 <= x' < img.width && 0 <= y' < img.height ==>
      Grayscale(img, luma).At(x', y', 0) == Grayscale(img, luma).At(0, 0, 0)
    ensures OtsuThresholded(img, luma).At(x, y, 0) == 255
  {
    var g := Grayscale(img, luma);
    var s := Column(g, 0);
    var hist := Hist(s);
    var v := g.At(0, 0, 0);
    forall i, j | 0 <= i < j < 256
      ensures hist[i] == 0 || hist[j] == 0
    {
      if i != v {
        CountAbsent(g, i);
      } else {
        CountAbsent(g, j);
      }
    }
    OtsuSingleBin(hist, OtsuScorer(hist, false));
    FixedThresholdedAt(g, luma, 0, x, y);
  }

  /** A value no pixel of a one-valued channel 0 holds has count 0. */
  lemma CountAbsent(g: Raster, i: int)
    requires g.Valid()
    requires forall x', y' :: 0 <= x' < g.width && 0 <= y' < g.height ==> g.At(x', y', 0) == g.At(0, 0, 0)
    requires i != g.At(0, 0, 0)
    ensures Count(Column(g, 0), i) == 0
  {
    var s := Column(g, 0);
    forall k | 0 <= k < |s|
      ensures s[k] != i
    {
      ProductPositive(g.width, g.height, 1);
      var x, y := k % g.width, k / g.width;
      QuotientBound(k, g.height, g.width);
    }
    CountNone(s, i);
  }

  lemma {:induction false} CountNone(s: seq<Byte>, v: int)
    requires forall k :: 0 <= k < |s| ==> s[k] != v
    ensures Count(s, v) == 0
  {
    if |s| > 0 {
      CountNone(s[..|s| - 1], v);
    }
  }

  /** The `long long` sum of the y/x scan of `g`. */
  method ScanSum(w: nat, h: nat, g: (int, int) -> Byte) returns (sum: int)
    ensures sum == Sum(Scan(w, h, g))
  {
    sum := 0;
    ghost var s := Scan(w, h, g);
    var y := 0;
    while y < h
      invariant 0 <= y <= h && y * w <= |s|
      invariant sum == Sum(s[..y * w])
    {
      RowEnd(w, h, y);
      sum := RowSum(w, h, g, y, sum);
      y := y + 1;
    }
    assert s[..h * w] == s;
  }

  /** The x loop of row `y`: the running sum grows by the row's samples. */
  method RowSum(w: nat, h: nat, g: (int, int) -> Byte, y: nat, sum0: int) returns (sum: int)
    requires y < h && y * w + w <= w * h
    requires sum0 == Sum(Scan(w, h, g)[..y * w])
    ensures sum == Sum(Scan(w, h, g)[..y * w + w])
  {
    ghost var s := Scan(w, h, g);
    sum := sum0;
    var x := 0;
    while x < w
      invariant 0 <= x <= w
      invariant sum == Sum(s[..y * w + x])
    {
      var v := g(x, y);
      ScanAt(w, h, g, x, y);
      SumPrefixStep(s, y * w + x);
      sum := sum + v;
      x := x + 1;
    }
  }

  /** The floor of the mean of a non-empty sample sequence. */
  function Mean(s: seq<Byte>): int
    requires |s| > 0
  {
    Sum(s) / |s|
  }

  /** All samples in [lo, hi] bound their sum by `lo |s|` and `hi |s|`. */
  lemma {:induction false} SumBetween(s: seq<Byte>, lo: int, hi: int)
    requires forall k :: 0 <= k < |s| ==> lo <= s[k] <= hi
    ensures lo * |s| <= Sum(s) <= hi * |s|
  {
    if |s| > 0 {
      var n := |s| - 1;
      SumBetween(s[..n], lo, hi);
      assert lo * (n + 1) == lo * n + lo && hi * (n + 1) == hi * n + hi;
    }
  }

  lemma DivBetween(total: int, n: int, lo: int, hi: int)
    requires n > 0 && lo * n <= total <= hi * n
    ensures lo <= total / n <= hi
  {
    var d, r := total / n, total % n;
    assert total == d * n + r && 0 <= r < n;
    assert (d - lo + 1) * n == d * n - lo * n + n;
    assert (hi - d) * n == hi * n - d * n;
    SignOf(d - lo + 1, n);
    SignOf(hi - d, n);
  }

  /** The mean of a non-empty sample sequence lies between its minimum and
      maximum, and so within 0..255. */
  lemma MeanBounds(s: seq<Byte>)
    requires |s| > 0
    ensures MinOf(s) <= Mean(s) <= MaxOf(s)
  {
    MinOfBounds(s);
    MaxOfBounds(s);
    assert forall k :: 0 <= k < |s| ==> s[k] in s;
    SumBetween(s, MinOf(s), MaxOf(s));
    DivBetween(Sum(s), |s|, MinOf(s), MaxOf(s));
  }

  /** The image `thresholdMean` returns: the gray image binarised at the
      floor of its mean. */
  function MeanThresholded(img: Raster, luma: Luma): Raster
    requires img.Valid() && img.width * img.height > 0
  {
    var g := Grayscale(img, luma);
    FixedThresholded(g, luma, Mean(Column(g, 0)))
  }

  /** `thresholdMean`. The division by `width * height` needs a non-empty
      image. */
  method ThresholdMean(img: Image, luma: Luma) returns (result: Image)
    requires img.Valid() && img.width * img.height > 0
    ensures fresh(result) && result.Valid() && result.View() == MeanThresholded(img.View(), luma)
  {
    var gray: Image;
    if img.channels == 1 {
      gray := img.Clone();
    } else {
      gray := img.ToGrayscale(luma);
    }
    var g := gray.View();
    var sum := ScanSum(gray.width, gray.height, ChannelReader(g, 0));
    MeanBounds(Column(g, 0));
    var meanThreshold: Byte := sum / (gray.width * gray.height);
    result := ThresholdFixed(gray, meanThreshold, luma);
  }

  /** The window mean of `calculateLocalMean`, exactly. */
  function WindowMean(r: Raster, x: int, y: int, windowSize: nat): real
    requires r.Valid()
  {
    var s := Window(r, x, y, 0, windowSize / 2);
    (Sum(s) as real) / (|s| as real)
  }

  /** The ky/kx loop of `calculateLocalMean`: the float sum of channel 0
      over the clamped window and the number of samples visited. */
  method WindowSum(r: Raster, x: int, y: int, offset: nat) returns (sum: real, count: int)
    requires r.Valid()
    ensures sum == Sum(Window(r, x, y, 0, offset)) as real && count == |Window(r, x, y, 0, offset)|
  {
    sum, count := 0.0, 0;
    ghost var s := Window(r, x, y, 0, offset);
    ghost var n := Side(offset);
    var wy := -(offset as int);
    while wy <= offset
      invariant -(offset as int) <= wy <= offset + 1
      invariant count == (wy + offset) * n && count <= |s|
      invariant sum == Sum(s[..count]) as real
    {
      var wx := -(offset as int);
      while wx <= offset
        invariant -(offset as int) <= wx <= offset + 1
        invariant count == (wy + offset) * n + (wx + offset) && count <= |s|
        invariant sum == Sum(s[..count]) as real
      {
        var px := ClampCoord(x + wx, r.width);
        var py := ClampCoord(y + wy, r.height);
        WindowStep(r, x, y, 0, offset, wx, wy, count);
        SumPrefixStep(s, count);
        sum := sum + r.At(px, py, 0) as real;
        count := count + 1;
        wx := wx + 1;
      }
      RowStep(wy + offset, n);
      wy := wy + 1;
    }
    assert s[..count] == s;
  }

  /** `calculateLocalMean`: the window sum divided by the sample count. */
  method CalculateLocalMean(img: Image, x: int, y: int, windowSize: nat) returns (mean: real)
    requires img.Valid()
    ensures mean == WindowMean(img.View(), x, y, windowSize)
  {
    var sum, count := WindowSum(img.View(), x, y, windowSize / 2);
    mean := sum / count as real;
  }

  /** The window has `(2 (windowSize / 2) + 1)^2` samples, which is
      `windowSize^2` for an odd size, and the mean lies between the
      window's minimum and maximum. */
  lemma WindowMeanBounds(r: Raster, x: int, y: int, windowSize: nat)
    requires r.Valid()
    ensures var s := Window(r, x, y, 0, windowSize / 2);
      && |s| == Side(windowSize / 2) * Side(windowSize / 2)
      && (windowSize % 2 == 1 ==> |s| == windowSize * windowSize)
      && MinOf(s) as real <= WindowMean(r, x, y, windowSize) <= MaxOf(s) as real
  {
    var s := Window(r, x, y, 0, windowSize / 2);
    MinOfBounds(s);
    MaxOfBounds(s);
    assert forall k :: 0 <= k < |s| ==> s[k] in s;
    SumBetween(s, MinOf(s), MaxOf(s));
    RealDivBetween(Sum(s), |s|, MinOf(s), MaxOf(s));
  }

  lemma RealDivBetween(total: int, n: int, lo: int, hi: int)
    requires n > 0 && lo * n <= total <= hi * n
    ensures lo as real <= (total as real) / (n as real) <= hi as real
  {
    assert (lo * n) as real == lo as real * n as real;
    assert (hi * n) as real == hi as real * n as real;
  }

  // ---------------------------------------------------------------------
  // Edge detection

  const SobelX: seq<seq<int>> := [[-1, 0, 1], [-2, 0, 2], [-1, 0, 1]]
  const SobelY: seq<seq<int>> := [[-1, -2, -1], [0, 0, 0], [1, 2, 1]]
  const PrewittX: seq<seq<int>> := [[-1, 0, 1], [-1, 0, 1], [-1, 0, 1]]
  const PrewittY: seq<seq<int>> := [[-1, -1, -1], [0, 0, 0], [1, 1, 1]]

  /** A 3 x 3 kernel. */
  predicate Kernel3(kernel: seq<seq<int>>)
  {
    |kernel| == 3 && Square(kernel)
  }

  /** The first `k` products `pixel * kernel[ky + 1][kx + 1]` of the 3 x 3
      gradient loop at (x, y), read without clamping. */
  function GradSum(g: Raster, kernel: seq<seq<int>>, x: int, y: int, k: nat): int
    requires g.Valid() && Kernel3(kernel) && k <= 9
  {
    if k == 0 then 0
    else GradSum(g, kernel, x, y, k - 1) + g.At(x + (k - 1) % 3 - 1, y + (k - 1) / 3 - 1, 0) * Cell(kernel, k - 1)
  }

  /** `floor(sqrt(n))`, searched upwards from `r`. */
  function RootFrom(n: nat, r: nat): (s: nat)
    requires r * r <= n
    ensures s * s <= n < (s + 1) * (s + 1)
    decreases n - r
  {
    if (r + 1) * (r + 1) > n then r
    else
      assert r + 1 <= (r + 1) * (r + 1);
      RootFrom(n, r + 1)
  }

  /** The integer square root: `static_cast<uint8_t>` of `std::sqrt` on an
      integer, taken as exact. */
  function ISqrt(n: nat): (r: nat)
    ensures r * r <= n < (r + 1) * (r + 1)
  {
    RootFrom(n, 0)
  }

  /** `min(255, sqrt(gx^2 + gy^2))`, truncated to a byte. */
  function Magnitude(gx: int, gy: int): Byte
  {
    Min(255, ISqrt(gx * gx + gy * gy))
  }

  /** Inner pixels are those with a full 3 x 3 neighbourhood. */
  predicate Inner(g: Raster, x: int, y: int)
  {
    1 <= x < g.width - 1 && 1 <= y < g.height - 1
  }

  /** The value an edge detector writes at (x, y): the capped gradient
      magnitude inside, the constructor's 0 on the border. */
  function EdgePixel(g: Raster, kx: seq<seq<int>>, ky: seq<seq<int>>): (int, int, int) -> Byte
    requires g.Valid() && Kernel3(kx) && Kernel3(ky)
  {
    (x, y, ch) => EdgeValue(g, kx, ky, x, y)
  }

  /** The edge value at (x, y): the magnitude inside the border, 0 on it. */
  function EdgeValue(g: Raster, kx: seq<seq<int>>, ky: seq<seq<int>>, x: int, y: int): Byte
    requires g.Valid() && Kernel3(kx) && Kernel3(ky)
  {
    if Inner(g, x, y) then Magnitude(GradSum(g, kx, x, y, 9), GradSum(g, ky, x, y, 9)) else 0
  }

  /** The image `sobelEdgeDetection` / `prewittEdgeDetection` return. */
  function EdgeMap(img: Raster, luma: Luma, kx: seq<seq<int>>, ky: seq<seq<int>>): Raster
    requires img.Valid() && Kernel3(kx) && Kernel3(ky)
  {
    var g := Grayscale(img, luma);
    Generate(g.width, g.height, 1, EdgePixel(g, kx, ky))
  }

  /** Visiting cell (kx, ky), the `k`-th, adds its product to the sum. */
  lemma GradStep(g: Raster, kernel: seq<seq<int>>, x: int, y: int, kx: int, ky: int, k: nat)
    requires g.Valid() && Kernel3(kernel) && -1 <= kx <= 1 && -1 <= ky <= 1 && k == (ky + 1) * 3 + (kx + 1)
    ensures GradSum(g, kernel, x, y, k + 1) == GradSum(g, kernel, x, y, k) + g.At(x + kx, y + ky, 0) * kernel[ky + 1][kx + 1]
  {
    DivModUnique(ky + 1, 3, kx + 1);
  }

  /** The 3 x 3 gradient loop at (x, y): both sums in one pass. Pass
      (i, j) visits ky = i - 1, kx = j - 1. */
  method GradientAt(g: Raster, kernelX: seq<seq<int>>, kernelY: seq<seq<int>>, x: int, y: int) returns (gx: int, gy: int)
    requires g.Valid() && Kernel3(kernelX) && Kernel3(kernelY)
    ensures gx == GradSum(g, kernelX, x, y, 9) && gy == GradSum(g, kernelY, x, y, 9)
  {
    gx, gy := 0, 0;
    ghost var k: nat := 0;
    for i := 0 to 3
      invariant k == i * 3
      invariant gx == GradSum(g, kernelX, x, y, k) && gy == GradSum(g, kernelY, x, y, k)
    {
      var ky := i - 1;
      for j := 0 to 3
        invariant k == i * 3 + j
        invariant gx == GradSum(g, kernelX, x, y, k) && gy == GradSum(g, kernelY, x, y, k)
      {
        var kx := j - 1;
        var pixel := g.At(x + kx, y + ky, 0);
        GradStep(g, kernelX, x, y, kx, ky, k);
        GradStep(g, kernelY, x, y, kx, ky, k);
        gx := gx + pixel * kernelX[ky + 1][kx + 1];
        gy := gy + pixel * kernelY[ky + 1][kx + 1];
        k := k + 1;
      }
    }
  }

  /** Loop bookkeeping of the edge detectors: a one-channel `w x h` buffer
      holding the edge value at the inner pixels before (x, y) in scan
      order and 0 everywhere else. */
  ghost predicate EdgesUpTo(r: Raster, g: Raster, kx: seq<seq<int>>, ky: seq<seq<int>>, x: int, y: int)
    requires g.Valid() && Kernel3(kx) && Kernel3(ky)
  {
    && r.Valid() && r.width == g.width && r.height == g.height && r.channels == 1
    && forall x', y' :: 0 <= x' < g.width && 0 <= y' < g.height ==>
      r.At(x', y', 0) == if Inner(g, x', y') && (y' < y || (y' == y && x' < x)) then EdgePixel(g, kx, ky)(x', y', 0) else 0
  }

  lemma EdgesStart(g: Raster, kx: seq<seq<int>>, ky: seq<seq<int>>)
    requires g.Valid() && Kernel3(kx) && Kernel3(ky)
    ensures EdgesUpTo(Blank(g.width, g.height, 1), g, kx, ky, 1, 1)
  {
    forall x', y' | 0 <= x' < g.width && 0 <= y' < g.height
      ensures Blank(g.width, g.height, 1).At(x', y', 0) == 0
    {
      BlankAt(g.width, g.height, 1, x', y', 0);
    }
  }

  lemma EdgesWrite(r: Raster, g: Raster, kx: seq<seq<int>>, ky: seq<seq<int>>, x: int, y: int, v: Byte)
    requires g.Valid() && Kernel3(kx) && Kernel3(ky) && EdgesUpTo(r, g, kx, ky, x, y)
    requires Inner(g, x, y) && v == EdgePixel(g, kx, ky)(x, y, 0)
    ensures EdgesUpTo(r.Put(x, y, 0, v), g, kx, ky, x + 1, y)
  {
    forall x', y' | 0 <= x' < g.width && 0 <= y' < g.height
      ensures r.Put(x, y, 0, v).At(x', y', 0) ==
        if Inner(g, x', y') && (y' < y || (y' == y && x' < x + 1)) then EdgePixel(g, kx, ky)(x', y', 0) else 0
    {
      PutAt(r, x, y, 0, v, x', y', 0);
    }
  }

  lemma EdgesRow(r: Raster, g: Raster, kx: seq<seq<int>>, ky: seq<seq<int>>, x: int, y: int)
    requires g.Valid() && Kernel3(kx) && Kernel3(ky) && EdgesUpTo(r, g, kx, ky, x, y) && x >= g.width - 1
    ensures EdgesUpTo(r, g, kx, ky, 1, y + 1)
  {
  }

  lemma EdgesDone(r: Raster, g: Raster, kx: seq<seq<int>>, ky: seq<seq<int>>, y: int)
    requires g.Valid() && Kernel3(kx) && Kernel3(ky) && EdgesUpTo(r, g, kx, ky, 1, y) && y >= g.height - 1
    ensures r == Generate(g.width, g.height, 1, EdgePixel(g, kx, ky))
  {
    forall x', y', k | 0 <= x' < g.width && 0 <= y' < g.height && 0 <= k < 1
      ensures r.At(x', y', k) == Generate(g.width, g.height, 1, EdgePixel(g, kx, ky)).At(x', y', k)
    {
      GenerateAt(g.width, g.height, 1, EdgePixel(g, kx, ky), x', y', k);
    }
    Extensionality(r, Generate(g.width, g.height, 1, EdgePixel(g, kx, ky)));
  }

  /** The shared body of `sobelEdgeDetection` and `prewittEdgeDetection`:
      reduce to gray, allocate a zero one-channel image, and write the
      capped magnitude at every inner pixel. */
  method EdgeDetection(img: Image, luma: Luma, kernelX: seq<seq<int>>, kernelY: seq<seq<int>>) returns (result: Image)
    requires img.Valid() && Kernel3(kernelX) && Kernel3(kernelY)
    ensures fresh(result) && result.Valid() && result.View() == EdgeMap(img.View(), luma, kernelX, kernelY)
  {
    var gray: Image;
    if img.channels == 1 {
      gray := img.Clone();
    } else {
      gray := img.ToGrayscale(luma);
    }
    var g := gray.View();
    var w: int, h: int := g.width, g.height;
    result := new Image(g.width, g.height, 1);
    EdgesStart(g, kernelX, kernelY);
    var y: int := 1;
    while y < h - 1
      invariant 1 <= y
      invariant fresh(result) && result.Valid() && EdgesUpTo(result.View(), g, kernelX, kernelY, 1, y)
    {
      var x: int := 1;
      while x < w - 1
        invariant 1 <= x
        invariant fresh(result) && result.Valid() && EdgesUpTo(result.View(), g, kernelX, kernelY, x, y)
      {
        var gx, gy := GradientAt(g, kernelX, kernelY, x, y);
        var magnitude := Magnitude(gx, gy);
        EdgesWrite(result.View(), g, kernelX, kernelY, x, y, magnitude);
        result.SetPixel(x, y, 0, magnitude);
        x := x + 1;
      }
      EdgesRow(result.View(), g, kernelX, kernelY, x, y);
      y := y + 1;
    }
    EdgesDone(result.View(), g, kernelX, kernelY, y);
  }

  /** `sobelEdgeDetection`. */
  method SobelEdgeDetection(img: Image, luma: Luma) returns (result: Image)
    requires img.Valid()
    ensures fresh(result) && result.Valid() && result.View() == EdgeMap(img.View(), luma, SobelX, SobelY)
  {
    result := EdgeDetection(img, luma, SobelX, SobelY);
  }

  /** `prewittEdgeDetection`. */
  method PrewittEdgeDetection(img: Image, luma: Luma) returns (result: Image)
    requires img.Valid()
    ensures fresh(result) && result.Valid() && result.View() == EdgeMap(img.View(), luma, PrewittX, PrewittY)
  {
    result := EdgeDetection(img, luma, PrewittX, PrewittY);
  }

  /** An edge map is a one-channel image of the input's size whose first
      and last rows and columns are 0, and whose inner pixels are the
      integer magnitude of the two gradients, capped at 255. */
  lemma EdgeMapAt(img: Raster, luma: Luma, kx: seq<seq<int>>, ky: seq<seq<int>>, x: int, y: int)
    requires img.Valid() && Kernel3(kx) && Kernel3(ky) && img.InBounds(x, y)
    ensures var e := EdgeMap(img, luma, kx, ky);
      var g := Grayscale(img, luma);
      var m := GradSum(g, kx, x, y, 9) * GradSum(g, kx, x, y, 9) + GradSum(g, ky, x, y, 9) * GradSum(g, ky, x, y, 9);
      && e.channels == 1 && e.width == img.width && e.height == img.height
      && (x == 0 || y == 0 || x == img.width - 1 || y == img.height - 1 ==> e.At(x, y, 0) == 0)
      && (Inner(g, x, y) && m >= 255 * 255 ==> e.At(x, y, 0) == 255)
      && (Inner(g, x, y) && m < 255 * 255 ==> e.At(x, y, 0) * e.At(x, y, 0) <= m < (e.At(x, y, 0) + 1) * (e.At(x, y, 0) + 1))
  {
    var g := Grayscale(img, luma);
    GenerateAt(g.width, g.height, 1, EdgePixel(g, kx, ky), x, y, 0);
    assert EdgeMap(img, luma, kx, ky).At(x, y, 0) == EdgeValue(g, kx, ky, x, y);
    if Inner(g, x, y) {
      MagnitudeBounds(GradSum(g, kx, x, y, 9), GradSum(g, ky, x, y, 9));
    }
  }

  /** The capped root: 255 from `255^2` on, the integer square root below. */
  lemma MagnitudeBounds(gx: int, gy: int)
    ensures var m, v := gx * gx + gy * gy, Magnitude(gx, gy);
      && (m >= 255 * 255 ==> v == 255)
      && (m < 255 * 255 ==> v * v <= m < (v + 1) * (v + 1))
  {
    var m := gx * gx + gy * gy;
    var r := ISqrt(m);
    SquareOrder(255, r + 1);
    SquareOrder(r, 255);
  }

  lemma SquareOrder(a: nat, b: nat)
    ensures a < b <==> a * a < b * b
  {
    if a < b {
      MulMono(a, b, a);
      MulMono(a, b, b);
      assert a * a < b * b;
    } else {
      MulMono(b, a, b);
      MulMono(b, a, a);
    }
  }

  lemma {:induction false} GradSumFlat(g: Raster, kernel: seq<seq<int>>, x: int, y: int, k: nat)
    requires g.Valid() && Kernel3(kernel) && k <= 9 && Inner(g, x, y)
    requires forall x', y' :: 0 <= x' < g.width && 0 <= y' < g.height ==> g.At(x', y', 0) == g.At(0, 0, 0)
    ensures GradSum(g, kernel, x, y, k) == g.At(0, 0, 0) * Weight(kernel, k)
  {
    if k > 0 {
      GradSumFlat(g, kernel, x, y, k - 1);
      var v, w, c := g.At(0, 0, 0), Weight(kernel, k - 1), Cell(kernel, k - 1);
      assert g.At(x + (k - 1) % 3 - 1, y + (k - 1) / 3 - 1, 0) == v;
      MulAdd(v, w, c);
    }
  }

  lemma EdgeKernelWeights()
    ensures Kernel3(SobelX) && Weight(SobelX, 9) == 0
    ensures Kernel3(SobelY) && Weight(SobelY, 9) == 0
    ensures Kernel3(PrewittX) && Weight(PrewittX, 9) == 0
    ensures Kernel3(PrewittY) && Weight(PrewittY, 9) == 0
  {
    assert Cell(SobelX, 0) == -1 && Cell(SobelX, 1) == 0 && Cell(SobelX, 2) == 1;
    assert Cell(SobelX, 3) == -2 && Cell(SobelX, 4) == 0 && Cell(SobelX, 5) == 2;
    assert Cell(SobelX, 6) == -1 && Cell(SobelX, 7) == 0 && Cell(SobelX, 8) == 1;
    assert Cell(SobelY, 0) == -1 && Cell(SobelY, 1) == -2 && Cell(SobelY, 2) == -1;
    assert Cell(SobelY, 3) == 0 && Cell(SobelY, 4) == 0 && Cell(SobelY, 5) == 0;
    assert Cell(SobelY, 6) == 1 && Cell(SobelY, 7) == 2 && Cell(SobelY, 8) == 1;
    assert Cell(PrewittX, 0) == -1 && Cell(PrewittX, 1) == 0 && Cell(PrewittX, 2) == 1;
    assert Cell(PrewittX, 3) == -1 && Cell(PrewittX, 4) == 0 && Cell(PrewittX, 5) == 1;
    assert Cell(PrewittX, 6) == -1 && Cell(PrewittX, 7) == 0 && Cell(PrewittX, 8) == 1;
    assert Cell(PrewittY, 0) == -1 && Cell(PrewittY, 1) == -1 && Cell(PrewittY, 2) == -1;
    assert Cell(PrewittY, 3) == 0 && Cell(PrewittY, 4) == 0 && Cell(PrewittY, 5) == 0;
    assert Cell(PrewittY, 6) == 1 && Cell(PrewittY, 7) == 1 && Cell(PrewittY, 8) == 1;
  }

  /** Both operators see no edge in an image of one gray value: their
      kernels add up to 0. */
  lemma EdgeMapFlat(img: Raster, luma: Luma, sobel: bool)
    requires img.Valid()
    requires forall x', y' :: 0 <= x' < img.width && 0 <= y' < img.height ==>
      Grayscale(img, luma).At(x', y', 0) == Grayscale(img, luma).At(0, 0, 0)
    ensures var kx, ky := if sobel then SobelX else PrewittX, if sobel then SobelY else PrewittY;
      EdgeMap(img, luma, kx, ky) == Blank(img.width, img.height, 1)
  {
    EdgeKernelWeights();
    var kx, ky := if sobel then SobelX else PrewittX, if sobel then SobelY else PrewittY;
    var g := Grayscale(img, luma);
    forall x, y, k | 0 <= x < img.width && 0 <= y < img.height && 0 <= k < 1
      ensures EdgeMap(img, luma, kx, ky).At(x, y, k) == Blank(img.width, img.height, 1).At(x, y, k)
    {
      GenerateAt(g.width, g.height, 1, EdgePixel(g, kx, ky), x, y, k);
      BlankAt(img.width, img.height, 1, x, y, k);
      if Inner(g, x, y) {
        GradSumFlat(g, kx, x, y, 9);
        GradSumFlat(g, ky, x, y, 9);
        assert ISqrt(0) == 0;
      }
    }
    Extensionality(EdgeMap(img, luma, kx, ky), Blank(img.width, img.height, 1));
  }

  // ---------------------------------------------------------------------
  // Structuring elements

  datatype StructElement = Rect | Cross | Ellipse

  /** Cell (i, j) of an element with centre `c`. */
  function ElementCell(element: StructElement, c: int, i: int, j: int): int
  {
    match element
    case Rect => 1
    case Cross => if i == c || j == c then 1 else 0
    case Ellipse => if (j - c) * (j - c) + (i - c) * (i - c) <= c * c then 1 else 0
  }

  /** The matrix `createStructuringElement(size, element)` returns: an even
      size bumped to odd, centre `size / 2`. */
  function Element(size: nat, element: StructElement): (k: seq<seq<int>>)
    ensures |k| == OddSize(size) && Square(k)
  {
    var n := OddSize(size);
    seq(n, i => seq(n, j => ElementCell(element, n / 2, i, j)))
  }

  /** `createStructuringElement`: a zero matrix whose cells are set to 1 by
      the loops of the chosen shape. */
  method CreateStructuringElement(size: nat, element: StructElement) returns (kernel: seq<seq<int>>)
    ensures kernel == Element(size, element)
  {
    var n := OddSize(size);
    kernel := seq(n, _ => seq(n, _ => 0));
    var center := n / 2;
    ghost var e := Element(size, element);
    match element {
      case Rect =>
        var i := 0;
        while i < n
          invariant 0 <= i <= n && |kernel| == n && Square(kernel)
          invariant forall r, q :: 0 <= r < n && 0 <= q < n ==> kernel[r][q] == if r < i then 1 else 0
        {
          var j := 0;
          while j < n
            invariant 0 <= j <= n && |kernel| == n && Square(kernel)
            invariant forall r, q :: 0 <= r < n && 0 <= q < n ==> kernel[r][q] == if r < i || (r == i && q < j) then 1 else 0
          {
            kernel := kernel[i := kernel[i][j := 1]];
            j := j + 1;
          }
          i := i + 1;
        }
      case Cross =>
        var i := 0;
        while i < n
          invariant 0 <= i <= n && |kernel| == n && Square(kernel)
          invariant forall r, q :: 0 <= r < n && 0 <= q < n ==> kernel[r][q] == if (q == center && r < i) || (r == center && q < i) then 1 else 0
        {
          kernel := kernel[i := kernel[i][center := 1]];
          kernel := kernel[center := kernel[center][i := 1]];
          i := i + 1;
        }
      case Ellipse =>
        var i := 0;
        while i < n
          invariant 0 <= i <= n && |kernel| == n && Square(kernel)
          invariant forall r, q :: 0 <= r < n && 0 <= q < n ==>
            kernel[r][q] == if r < i then ElementCell(Ellipse, center, r, q) else 0
        {
          var j := 0;
          while j < n
            invariant 0 <= j <= n && |kernel| == n && Square(kernel)
            invariant forall r, q :: 0 <= r < n && 0 <= q < n ==>
              kernel[r][q] == if r < i || (r == i && q < j) then ElementCell(Ellipse, center, r, q) else 0
          {
            var x := j - center;
            var y := i - center;
            if x * x + y * y <= center * center {
              kernel := kernel[i := kernel[i][j := 1]];
            }
            j := j + 1;
          }
          i := i + 1;
        }
    }
    forall r | 0 <= r < n
      ensures kernel[r] == e[r]
    {
      assert forall q :: 0 <= q < n ==> kernel[r][q] == e[r][q];
    }
  }

  /** The element is an odd square whose centre cell is 1, with the
      shape's cells: all ones, the centre row and column, or the disc
      `dx^2 + dy^2 <= c^2`. */
  lemma ElementShape(size: nat, element: StructElement, i: int, j: int)
    requires 0 <= i < OddSize(size) && 0 <= j < OddSize(size)
    ensures var k, n := Element(size, element), OddSize(size);
      var c := n / 2;
      && n % 2 == 1 && size <= n && c == size / 2
      && k[c][c] == 1
      && (element == Rect ==> k[i][j] == 1)
      && (element == Cross ==> (k[i][j] == 1 <==> i == c || j == c) && (k[i][j] == 0 <==> i != c && j != c))
      && (element == Ellipse ==> (k[i][j] == 1 <==> (j - c) * (j - c) + (i - c) * (i - c) <= c * c))
  {
    var k, n := Element(size, element), OddSize(size);
    var c := n / 2;
    assert k[i][j] == ElementCell(element, c, i, j);
    assert k[c][c] == ElementCell(element, c, c, c);
  }

  /** Every shape is symmetric about both axes and the diagonal. */
  lemma ElementSymmetric(size: nat, element: StructElement, i: int, j: int)
    requires 0 <= i < OddSize(size) && 0 <= j < OddSize(size)
    ensures var k, n := Element(size, element), OddSize(size);
      k[i][j] == k[j][i] && k[i][j] == k[n - 1 - i][j] && k[i][j] == k[i][n - 1 - j]
  {
    var k, n := Element(size, element), OddSize(size);
    var c := n / 2;
    assert n - 1 == 2 * c;
    assert k[i][j] == ElementCell(element, c, i, j);
    assert k[j][i] == ElementCell(element, c, j, i);
    assert k[n - 1 - i][j] == ElementCell(element, c, 2 * c - i, j);
    assert k[i][n - 1 - j] == ElementCell(element, c, i, 2 * c - j);
    CellSymmetric(element, c, i, j);
  }

  lemma CellSymmetric(element: StructElement, c: int, i: int, j: int)
    ensures ElementCell(element, c, i, j) == ElementCell(element, c, j, i)
    ensures ElementCell(element, c, i, j) == ElementCell(element, c, 2 * c - i, j)
    ensures ElementCell(element, c, i, j) == ElementCell(element, c, i, 2 * c - j)
  {
    assert (2 * c - i) - c == -(i - c);
    assert (2 * c - j) - c == -(j - c);
  }

  // ---------------------------------------------------------------------
  // Morphology

  datatype MorphOp = Erode | Dilate | Open | Close

  /** A structuring element the morphology loops can index: a square at
      least `kernelSize` wide. */
  predicate Indexable(kernel: seq<seq<int>>, kernelSize: nat)
  {
    Square(kernel) && kernelSize <= |kernel|
  }

  /** The samples the kx loop of `morphology` looks at in kernel row `ky`,
      for its first `n` columns: each column whose element cell is non-zero
      contributes the clamped neighbour `(x + kx - offset, y + ky - offset)`
      of channel 0. */
  function MaskedRow(g: Raster, kernel: seq<seq<int>>, kernelSize: nat, x: int, y: int, ky: nat, n: nat): seq<Byte>
    requires g.Valid() && Indexable(kernel, kernelSize) && ky < kernelSize && n <= kernelSize
  {
    if n == 0 then []
    else
      var kx, offset := n - 1, kernelSize / 2;
      MaskedRow(g, kernel, kernelSize, x, y, ky, kx) +
        (if kernel[ky][kx] != 0 then [g.At(ClampCoord(x + kx - offset, g.width), ClampCoord(y + ky - offset, g.height), 0)] else [])
  }

  /** The samples of the first `rows` kernel rows, in ky/kx loop order. */
  function Masked(g: Raster, kernel: seq<seq<int>>, kernelSize: nat, x: int, y: int, rows: nat): seq<Byte>
    requires g.Valid() && Indexable(kernel, kernelSize) && rows <= kernelSize
  {
    if rows == 0 then []
    else Masked(g, kernel, kernelSize, x, y, rows - 1) + MaskedRow(g, kernel, kernelSize, x, y, rows - 1, kernelSize)
  }

  /** The running minimum of the kx loop over row `ky`, for its first `n`
      columns, starting from `start`. */
  function RowMin(g: Raster, kernel: seq<seq<int>>, kernelSize: nat, x: int, y: int, ky: nat, n: nat, start: Byte): Byte
    requires g.Valid() && Indexable(kernel, kernelSize) && ky < kernelSize && n <= kernelSize
  {
    if n == 0 then start
    else
      var kx, offset := n - 1, kernelSize / 2;
      var m := RowMin(g, kernel, kernelSize, x, y, ky, kx, start);
      if kernel[ky][kx] != 0 then (var v := g.At(ClampCoord(x + kx - offset, g.width), ClampCoord(y + ky - offset, g.height), 0); if v < m then v else m) else m
  }

  /** The running maximum of the kx loop over row `ky`. */
  function RowMax(g: Raster, kernel: seq<seq<int>>, kernelSize: nat, x: int, y: int, ky: nat, n: nat, start: Byte): Byte
    requires g.Valid() && Indexable(kernel, kernelSize) && ky < kernelSize && n <= kernelSize
  {
    if n == 0 then start
    else
      var kx, offset := n - 1, kernelSize / 2;
      var m := RowMax(g, kernel, kernelSize, x, y, ky, kx, start);
      if kernel[ky][kx] != 0 then (var v := g.At(ClampCoord(x + kx - offset, g.width), ClampCoord(y + ky - offset, g.height), 0); if v > m then v else m) else m
  }

  /** `minVal` after the first `rows` rows of the ky/kx loops. */
  function RunMin(g: Raster, kernel: seq<seq<int>>, kernelSize: nat, x: int, y: int, rows: nat): Byte
    requires g.Valid() && Indexable(kernel, kernelSize) && rows <= kernelSize
  {
    if rows == 0 then 255
    else RowMin(g, kernel, kernelSize, x, y, rows - 1, kernelSize, RunMin(g, kernel, kernelSize, x, y, rows - 1))
  }

  /** `maxVal` after the first `rows` rows of the ky/kx loops. */
  function RunMax(g: Raster, kernel: seq<seq<int>>, kernelSize: nat, x: int, y: int, rows: nat): Byte
    requires g.Valid() && Indexable(kernel, kernelSize) && rows <= kernelSize
  {
    if rows == 0 then 0
    else RowMax(g, kernel, kernelSize, x, y, rows - 1, kernelSize, RunMax(g, kernel, kernelSize, x, y, rows - 1))
  }

  /** The extremes of the masked neighbourhood grow row by row. */
  lemma MaskedExtremes(g: Raster, kernel: seq<seq<int>>, kernelSize: nat, x: int, y: int, rows: nat)
    requires g.Valid() && Indexable(kernel, kernelSize) && 0 < rows <= kernelSize
    ensures var prev, row := Masked(g, kernel, kernelSize, x, y, rows - 1), MaskedRow(g, kernel, kernelSize, x, y, rows - 1, kernelSize);
      && MinOf(Masked(g, kernel, kernelSize, x, y, rows)) == Min(MinOf(prev), MinOf(row))
      && MaxOf(Masked(g, kernel, kernelSize, x, y, rows)) == Max(MaxOf(prev), MaxOf(row))
  {
    ExtremesConcat(Masked(g, kernel, kernelSize, x, y, rows - 1), MaskedRow(g, kernel, kernelSize, x, y, rows - 1, kernelSize));
  }

  /** One row of the kx loop lowers `start` to the minimum of the row's
      masked samples. */
  lemma {:induction false} RowMinIs(g: Raster, kernel: seq<seq<int>>, kernelSize: nat, x: int, y: int, ky: nat, n: nat, start: Byte)
    requires g.Valid() && Indexable(kernel, kernelSize) && ky < kernelSize && n <= kernelSize
    ensures RowMin(g, kernel, kernelSize, x, y, ky, n, start) == Min(start, MinOf(MaskedRow(g, kernel, kernelSize, x, y, ky, n)))
  {
    if n > 0 {
      var kx := n - 1;
      RowMinIs(g, kernel, kernelSize, x, y, ky, kx, start);
      var row := MaskedRow(g, kernel, kernelSize, x, y, ky, kx);
      if kernel[ky][kx] != 0 {
        MinOfStep(row, g.At(ClampCoord(x + kx - kernelSize / 2, g.width), ClampCoord(y + ky - kernelSize / 2, g.height), 0));
      } else {
        assert row + [] == row;
      }
    }
  }

  /** The running minimum of the loops is the minimum of the masked
      neighbourhood. */
  lemma {:induction false} RunMinIs(g: Raster, kernel: seq<seq<int>>, kernelSize: nat, x: int, y: int, rows: nat)
    requires g.Valid() && Indexable(kernel, kernelSize) && rows <= kernelSize
    ensures RunMin(g, kernel, kernelSize, x, y, rows) == MinOf(Masked(g, kernel, kernelSize, x, y, rows))
  {
    if rows > 0 {
      var ky := rows - 1;
      var start := RunMin(g, kernel, kernelSize, x, y, ky);
      RunMinIs(g, kernel, kernelSize, x, y, ky);
      RowMinIs(g, kernel, kernelSize, x, y, ky, kernelSize, start);
      MaskedExtremes(g, kernel, kernelSize, x, y, rows);
    }
  }

  /** One row of the kx loop raises `start` to the maximum of the row's
      masked samples. */
  lemma {:induction false} RowMaxIs(g: Raster, kernel: seq<seq<int>>, kernelSize: nat, x: int, y: int, ky: nat, n: nat, start: Byte)
    requires g.Valid() && Indexable(kernel, kernelSize) && ky < kernelSize && n <= kernelSize
    ensures RowMax(g, kernel, kernelSize, x, y, ky, n, start) == Max(start, MaxOf(MaskedRow(g, kernel, kernelSize, x, y, ky, n)))
  {
    if n > 0 {
      var kx := n - 1;
      RowMaxIs(g, kernel, kernelSize, x, y, ky, kx, start);
      var row := MaskedRow(g, kernel, kernelSize, x, y, ky, kx);
      if kernel[ky][kx] != 0 {
        MaxOfStep(row, g.At(ClampCoord(x + kx - kernelSize / 2, g.width), ClampCoord(y + ky - kernelSize / 2, g.height), 0));
      } else {
        assert row + [] == row;
      }
    }
  }

  /** The running maximum of the loops is the maximum of the masked
      neighbourhood. */
  lemma {:induction false} RunMaxIs(g: Raster, kernel: seq<seq<int>>, kernelSize: nat, x: int, y: int, rows: nat)
    requires g.Valid() && Indexable(kernel, kernelSize) && rows <= kernelSize
    ensures RunMax(g, kernel, kernelSize, x, y, rows) == MaxOf(Masked(g, kernel, kernelSize, x, y, rows))
  {
    if rows > 0 {
      var ky := rows - 1;
      var start := RunMax(g, kernel, kernelSize, x, y, ky);
      RunMaxIs(g, kernel, kernelSize, x, y, ky);
      RowMaxIs(g, kernel, kernelSize, x, y, ky, kernelSize, start);
      MaskedExtremes(g, kernel, kernelSize, x, y, rows);
    }
  }

  /** The `minVal` loop of the ERODE case at one pixel. */
  method MaskedMin(g: Raster, kernel: seq<seq<int>>, kernelSize: nat, x: int, y: int) returns (minVal: Byte)
    requires g.Valid() && Indexable(kernel, kernelSize)
    ensures minVal == MinOf(Masked(g, kernel, kernelSize, x, y, kernelSize))
  {
    var offset := kernelSize / 2;
    minVal := 255;
    var ky := 0;
    while ky < kernelSize
      invariant 0 <= ky <= kernelSize
      invariant minVal == RunMin(g, kernel, kernelSize, x, y, ky)
    {
      ghost var start := minVal;
      var kx := 0;
      while kx < kernelSize
        invariant 0 <= kx <= kernelSize
        invariant minVal == RowMin(g, kernel, kernelSize, x, y, ky, kx, start)
      {
        if kernel[ky][kx] != 0 {
          var px := ClampCoord(x + kx - offset, g.width);
          var py := ClampCoord(y + ky - offset, g.height);
          var v := g.At(px, py, 0);
          minVal := if v < minVal then v else minVal;
        }
        kx := kx + 1;
      }
      assert RunMin(g, kernel, kernelSize, x, y, ky + 1) == RowMin(g, kernel, kernelSize, x, y, ky, kernelSize, start);
      ky := ky + 1;
    }
    RunMinIs(g, kernel, kernelSize, x, y, kernelSize);
  }

  /** The `maxVal` loop of the DILATE case at one pixel. */
  method MaskedMax(g: Raster, kernel: seq<seq<int>>, kernelSize: nat, x: int, y: int) returns (maxVal: Byte)
    requires g.Valid() && Indexable(kernel, kernelSize)
    ensures maxVal == MaxOf(Masked(g, kernel, kernelSize, x, y, kernelSize))
  {
    var offset := kernelSize / 2;
    maxVal := 0;
    var ky := 0;
    while ky < kernelSize
      invariant 0 <= ky <= kernelSize
      invariant maxVal == RunMax(g, kernel, kernelSize, x, y, ky)
    {
      ghost var start := maxVal;
      var kx := 0;
      while kx < kernelSize
        invariant 0 <= kx <= kernelSize
        invariant maxVal == RowMax(g, kernel, kernelSize, x, y, ky, kx, start)
      {
        if kernel[ky][kx] != 0 {
          var px := ClampCoord(x + kx - offset, g.width);
          var py := ClampCoord(y + ky - offset, g.height);
          var v := g.At(px, py, 0);
          maxVal := if v > maxVal then v else maxVal;
        }
        kx := kx + 1;
      }
      assert RunMax(g, kernel, kernelSize, x, y, ky + 1) == RowMax(g, kernel, kernelSize, x, y, ky, kernelSize, start);
      ky := ky + 1;
    }
    RunMaxIs(g, kernel, kernelSize, x, y, kernelSize);
  }

  /** Channel 0 after one erosion (`erode`) or dilation pass. */
  function PassPlane(g: Raster, kernel: seq<seq<int>>, kernelSize: nat, erode: bool): (int, int) -> Byte
    requires g.Valid() && Indexable(kernel, kernelSize)
  {
    (x, y) =>
      var s := Masked(g, kernel, kernelSize, x, y, kernelSize);
      if erode then MinOf(s) else MaxOf(s)
  }

  /** A clone of `g` with channel 0 eroded or dilated. */
  function Pass(g: Raster, kernel: seq<seq<int>>, kernelSize: nat, erode: bool): (q: Raster)
    requires g.Valid() && Indexable(kernel, kernelSize)
    ensures q.Valid() && SameShape(q, g)
  {
    WithChannel(g, 0, PassPlane(g, kernel, kernelSize, erode))
  }

  /** Channel 0 of every pixel before (x, y) in scan order holds its
      pass value; every other sample is still that of `g`. */
  ghost predicate PassedTo(q: Raster, g: Raster, kernel: seq<seq<int>>, kernelSize: nat, erode: bool, x: int, y: int)
    requires g.Valid() && Indexable(kernel, kernelSize)
  {
    && q.Valid() && SameShape(q, g)
    && forall x', y', k :: 0 <= x' < g.width && 0 <= y' < g.height && 0 <= k < g.channels ==>
      q.At(x', y', k) ==
        if k == 0 && (y' < y || (y' == y && x' < x)) then PassPlane(g, kernel, kernelSize, erode)(x', y') else g.At(x', y', k)
  }

  /** The ERODE and DILATE cases: clone the gray image and set channel 0 of
      every pixel of the clone to the extreme of its masked neighbours. */
  method MorphPass(gray: Image, kernel: seq<seq<int>>, kernelSize: nat, erode: bool) returns (result: Image)
    requires gray.Valid() && Indexable(kernel, kernelSize)
    ensures fresh(result) && result.Valid() && result.View() == Pass(gray.View(), kernel, kernelSize, erode)
  {
    var g := gray.View();
    result := gray.Clone();
    var y := 0;
    while y < g.height
      invariant 0 <= y <= g.height
      invariant fresh(result) && result.Valid() && PassedTo(result.View(), g, kernel, kernelSize, erode, 0, y)
    {
      MorphRow(result, g, kernel, kernelSize, erode, y);
      y := y + 1;
    }
    forall x', y', k | 0 <= x' < g.width && 0 <= y' < g.height && 0 <= k < g.channels
      ensures result.View().At(x', y', k) == Pass(g, kernel, kernelSize, erode).At(x', y', k)
    {
      WithChannelAt(g, 0, PassPlane(g, kernel, kernelSize, erode), x', y', k);
    }
    Extensionality(result.View(), Pass(g, kernel, kernelSize, erode));
  }

  /** The inner `x` loop of one pass over row `y`. */
  method MorphRow(result: Image, g: Raster, kernel: seq<seq<int>>, kernelSize: nat, erode: bool, y: int)
    requires g.Valid() && Indexable(kernel, kernelSize) && 0 <= y < g.height
    requires result.Valid() && PassedTo(result.View(), g, kernel, kernelSize, erode, 0, y)
    modifies result
    ensures result.Valid() && PassedTo(result.View(), g, kernel, kernelSize, erode, 0, y + 1)
  {
    var x := 0;
    while x < g.width
      invariant 0 <= x <= g.width
      invariant result.Valid() && PassedTo(result.View(), g, kernel, kernelSize, erode, x, y)
    {
      var v: Byte;
      if erode {
        v := MaskedMin(g, kernel, kernelSize, x, y);
      } else {
        v := MaskedMax(g, kernel, kernelSize, x, y);
      }
      ghost var before := result.View();
      result.SetPixel(x, y, 0, v);
      forall x', y', k | 0 <= x' < g.width && 0 <= y' < g.height && 0 <= k < g.channels
        ensures result.View().At(x', y', k) ==
          if k == 0 && (y' < y || (y' == y && x' < x + 1)) then PassPlane(g, kernel, kernelSize, erode)(x', y') else g.At(x', y', k)
      {
        PutAt(before, x, y, 0, v, x', y', k);
      }
      x := x + 1;
    }
    forall x', y', k | 0 <= x' < g.width && 0 <= y' < g.height && 0 <= k < g.channels
      ensures result.View().At(x', y', k) ==
        if k == 0 && (y' < y + 1 || (y' == y + 1 && x' < 0)) then PassPlane(g, kernel, kernelSize, erode)(x', y') else g.At(x', y', k)
    {
    }
  }

  lemma ElementIndexable(kernelSize: nat, element: StructElement)
    ensures Indexable(Element(kernelSize, element), kernelSize)
  {
  }

  /** The image `morphology(img, op, kernelSize, element)` returns. OPEN
      dilates the eroded gray image and CLOSE erodes the dilated one. */
  function Morphed(img: Raster, op: MorphOp, kernelSize: nat, element: StructElement, luma: Luma): (q: Raster)
    requires img.Valid()
    ensures q.Valid() && q.width == img.width && q.height == img.height && q.channels == 1
  {
    var g := Grayscale(img, luma);
    var K := Element(kernelSize, element);
    match op
    case Erode => Pass(g, K, kernelSize, true)
    case Dilate => Pass(g, K, kernelSize, false)
    case Open => Pass(Pass(g, K, kernelSize, true), K, kernelSize, false)
    case Close => Pass(Pass(g, K, kernelSize, false), K, kernelSize, true)
  }

  /** OPEN and CLOSE are the compositions of the other two operations. */
  lemma MorphedCompositions(img: Raster, kernelSize: nat, element: StructElement, luma: Luma)
    requires img.Valid()
    ensures Morphed(img, Open, kernelSize, element, luma) ==
      Morphed(Morphed(img, Erode, kernelSize, element, luma), Dilate, kernelSize, element, luma)
    ensures Morphed(img, Close, kernelSize, element, luma) ==
      Morphed(Morphed(img, Dilate, kernelSize, element, luma), Erode, kernelSize, element, luma)
  {
  }

  function OpRank(op: MorphOp): nat
  {
    if op == Open || op == Close then 1 else 0
  }

  /** `morphology`: gray image, element, and then one pass, or for OPEN and
      CLOSE two recursive calls. */
  method Morphology(img: Image, op: MorphOp, kernelSize: nat, element: StructElement, luma: Luma) returns (result: Image)
    requires img.Valid()
    ensures fresh(result) && result.Valid() && result.View() == Morphed(img.View(), op, kernelSize, element, luma)
    decreases OpRank(op)
  {
    var gray: Image;
    if img.channels == 1 {
      gray := img.Clone();
    } else {
      gray := img.ToGrayscale(luma);
    }
    var kernel := CreateStructuringElement(kernelSize, element);
    result := gray.Clone();
    match op {
      case Erode =>
        result := MorphPass(gray, kernel, kernelSize, true);
      case Dilate =>
        result := MorphPass(gray, kernel, kernelSize, false);
      case Open =>
        var eroded := Morphology(gray, Erode, kernelSize, element, luma);
        result := Morphology(eroded, Dilate, kernelSize, element, luma);
      case Close =>
        var dilated := Morphology(gray, Dilate, kernelSize, element, luma);
        result := Morphology(dilated, Erode, kernelSize, element, luma);
    }
  }

  /** A non-zero cell in column `kx < n` of row `ky` contributes its
      sample to the row's first `n` masked samples. */
  lemma {:induction false} MaskedRowHas(g: Raster, kernel: seq<seq<int>>, kernelSize: nat, x: int, y: int, ky: nat, n: nat, kx: nat)
    requires g.Valid() && Indexable(kernel, kernelSize) && ky < kernelSize && n <= kernelSize
    requires kx < n && kernel[ky][kx] != 0
    ensures g.At(ClampCoord(x + kx - kernelSize / 2, g.width), ClampCoord(y + ky - kernelSize / 2, g.height), 0) in
      MaskedRow(g, kernel, kernelSize, x, y, ky, n)
  {
    var v := g.At(ClampCoord(x + kx - kernelSize / 2, g.width), ClampCoord(y + ky - kernelSize / 2, g.height), 0);
    var m, offset := n - 1, kernelSize / 2;
    var prev := MaskedRow(g, kernel, kernelSize, x, y, ky, m);
    var tail := if kernel[ky][m] != 0 then [g.At(ClampCoord(x + m - offset, g.width), ClampCoord(y + ky - offset, g.height), 0)] else [];
    assert MaskedRow(g, kernel, kernelSize, x, y, ky, n) == prev + tail;
    if kx < m {
      MaskedRowHas(g, kernel, kernelSize, x, y, ky, m, kx);
      assert v in prev;
    } else {
      assert kernel[ky][m] != 0;
      assert tail[0] == v;
    }
    assert v in prev + tail;
  }

  /** A non-zero cell in a row `ky < rows` contributes its sample to the
      first `rows` rows of masked samples. */
  lemma {:induction false} MaskedHas(g: Raster, kernel: seq<seq<int>>, kernelSize: nat, x: int, y: int, rows: nat, ky: nat, kx: nat)
    requires g.Valid() && Indexable(kernel, kernelSize) && rows <= kernelSize
    requires ky < rows && kx < kernelSize && kernel[ky][kx] != 0
    ensures g.At(ClampCoord(x + kx - kernelSize / 2, g.width), ClampCoord(y + ky - kernelSize / 2, g.height), 0) in
      Masked(g, kernel, kernelSize, x, y, rows)
  {
    var v := g.At(ClampCoord(x + kx - kernelSize / 2, g.width), ClampCoord(y + ky - kernelSize / 2, g.height), 0);
    var prev, row := Masked(g, kernel, kernelSize, x, y, rows - 1), MaskedRow(g, kernel, kernelSize, x, y, rows - 1, kernelSize);
    if ky == rows - 1 {
      MaskedRowHas(g, kernel, kernelSize, x, y, ky, kernelSize, kx);
      assert v in row;
    } else {
      MaskedHas(g, kernel, kernelSize, x, y, rows - 1, ky, kx);
      assert v in prev;
    }
    assert v in prev + row;
  }

  /** The pixel itself is among its masked neighbours: the element's centre
      cell is 1 and lies inside the loops for any `kernelSize >= 1`. */
  lemma CentreMasked(g: Raster, kernelSize: nat, element: StructElement, x: int, y: int)
    requires g.Valid() && kernelSize >= 1 && g.InBounds(x, y)
    ensures g.At(x, y, 0) in Masked(g, Element(kernelSize, element), kernelSize, x, y, kernelSize)
  {
    var off := kernelSize / 2;
    var kernel := Element(kernelSize, element);
    ElementShape(kernelSize, element, off, off);
    assert kernel[off][off] == 1;
    assert Indexable(kernel, kernelSize);
    MaskedHas(g, kernel, kernelSize, x, y, kernelSize, off, off);
    assert ClampCoord(x + off - off, g.width) == x && ClampCoord(y + off - off, g.height) == y;
  }

  /** Erosion never raises a pixel and dilation never lowers one. */
  lemma PassOrder(g: Raster, kernelSize: nat, element: StructElement, x: int, y: int)
    requires g.Valid() && kernelSize >= 1 && g.InBounds(x, y) && g.channels >= 1
    ensures Pass(g, Element(kernelSize, element), kernelSize, true).At(x, y, 0) <= g.At(x, y, 0)
    ensures g.At(x, y, 0) <= Pass(g, Element(kernelSize, element), kernelSize, false).At(x, y, 0)
  {
    var K := Element(kernelSize, element);
    CentreMasked(g, kernelSize, element, x, y);
    WithChannelAt(g, 0, PassPlane(g, K, kernelSize, true), x, y, 0);
    WithChannelAt(g, 0, PassPlane(g, K, kernelSize, false), x, y, 0);
    MinOfBounds(Masked(g, K, kernelSize, x, y, kernelSize));
    MaxOfBounds(Masked(g, K, kernelSize, x, y, kernelSize));
  }

  /** Sequences of the same length, one below the other position by
      position. */
  predicate Below(a: seq<Byte>, b: seq<Byte>)
  {
    |a| == |b| && forall i :: 0 <= i < |a| ==> a[i] <= b[i]
  }

  lemma BelowConcat(a: seq<Byte>, b: seq<Byte>, c: seq<Byte>, d: seq<Byte>)
    requires Below(a, b) && Below(c, d)
    ensures Below(a + c, b + d)
  {
  }

  /** The masked samples of a row of two images of the same size, one
      below the other, are position by position below each other. */
  lemma {:induction false} MaskedRowBelow(f: Raster, g: Raster, kernel: seq<seq<int>>, kernelSize: nat, x: int, y: int, ky: nat, n: nat)
    requires f.Valid() && g.Valid() && SameShape(f, g) && Indexable(kernel, kernelSize) && ky < kernelSize && n <= kernelSize
    requires forall x', y' :: 0 <= x' < f.width && 0 <= y' < f.height ==> f.At(x', y', 0) <= g.At(x', y', 0)
    ensures Below(MaskedRow(f, kernel, kernelSize, x, y, ky, n), MaskedRow(g, kernel, kernelSize, x, y, ky, n))
  {
    if n > 0 {
      var kx := n - 1;
      MaskedRowBelow(f, g, kernel, kernelSize, x, y, ky, kx);
      var px := ClampCoord(x + kx - kernelSize / 2, f.width);
      var py := ClampCoord(y + ky - kernelSize / 2, f.height);
      if f.width > 0 && f.height > 0 {
        assert f.At(px, py, 0) <= g.At(px, py, 0);
      }
      if kernel[ky][kx] != 0 {
        BelowConcat(MaskedRow(f, kernel, kernelSize, x, y, ky, kx), MaskedRow(g, kernel, kernelSize, x, y, ky, kx), [f.At(px, py, 0)], [g.At(px, py, 0)]);
      } else {
        BelowConcat(MaskedRow(f, kernel, kernelSize, x, y, ky, kx), MaskedRow(g, kernel, kernelSize, x, y, ky, kx), [], []);
      }
    }
  }

  lemma {:induction false} MaskedBelow(f: Raster, g: Raster, kernel: seq<seq<int>>, kernelSize: nat, x: int, y: int, rows: nat)
    requires f.Valid() && g.Valid() && SameShape(f, g) && Indexable(kernel, kernelSize) && rows <= kernelSize
    requires forall x', y' :: 0 <= x' < f.width && 0 <= y' < f.height ==> f.At(x', y', 0) <= g.At(x', y', 0)
    ensures Below(Masked(f, kernel, kernelSize, x, y, rows), Masked(g, kernel, kernelSize, x, y, rows))
  {
    if rows > 0 {
      MaskedBelow(f, g, kernel, kernelSize, x, y, rows - 1);
      MaskedRowBelow(f, g, kernel, kernelSize, x, y, rows - 1, kernelSize);
      BelowConcat(Masked(f, kernel, kernelSize, x, y, rows - 1), Masked(g, kernel, kernelSize, x, y, rows - 1),
        MaskedRow(f, kernel, kernelSize, x, y, rows - 1, kernelSize), MaskedRow(g, kernel, kernelSize, x, y, rows - 1, kernelSize));
    }
  }

  lemma {:induction false} MinOfBelow(a: seq<Byte>, b: seq<Byte>)
    requires Below(a, b)
    ensures MinOf(a) <= MinOf(b) && MaxOf(a) <= MaxOf(b)
  {
    if |a| > 0 {
      MinOfBelow(a[..|a| - 1], b[..|b| - 1]);
    }
  }

  /** Erosion and dilation keep the order of images. */
  lemma PassMonotone(f: Raster, g: Raster, kernel: seq<seq<int>>, kernelSize: nat, erode: bool, x: int, y: int)
    requires f.Valid() && g.Valid() && SameShape(f, g) && Indexable(kernel, kernelSize) && f.InBounds(x, y) && f.channels >= 1
    requires forall x', y' :: 0 <= x' < f.width && 0 <= y' < f.height ==> f.At(x', y', 0) <= g.At(x', y', 0)
    ensures Pass(f, kernel, kernelSize, erode).At(x, y, 0) <= Pass(g, kernel, kernelSize, erode).At(x, y, 0)
  {
    MaskedBelow(f, g, kernel, kernelSize, x, y, kernelSize);
    MinOfBelow(Masked(f, kernel, kernelSize, x, y, kernelSize), Masked(g, kernel, kernelSize, x, y, kernelSize));
    WithChannelAt(f, 0, PassPlane(f, kernel, kernelSize, erode), x, y, 0);
    WithChannelAt(g, 0, PassPlane(g, kernel, kernelSize, erode), x, y, 0);
  }

  /** The order facts of `MorphologyOrder` for the passes over one gray
      image. */
  lemma PassSandwich(g: Raster, kernelSize: nat, element: StructElement, x: int, y: int)
    requires g.Valid() && kernelSize >= 1 && g.InBounds(x, y) && g.channels >= 1
    ensures var K := Element(kernelSize, element);
      var e, d := Pass(g, K, kernelSize, true), Pass(g, K, kernelSize, false);
      && e.At(x, y, 0) <= g.At(x, y, 0) <= d.At(x, y, 0)
      && e.At(x, y, 0) <= Pass(e, K, kernelSize, false).At(x, y, 0) <= d.At(x, y, 0)
      && e.At(x, y, 0) <= Pass(d, K, kernelSize, true).At(x, y, 0) <= d.At(x, y, 0)
  {
    var K := Element(kernelSize, element);
    var e, d := Pass(g, K, kernelSize, true), Pass(g, K, kernelSize, false);
    PassOrder(g, kernelSize, element, x, y);
    PassOrder(e, kernelSize, element, x, y);
    PassOrder(d, kernelSize, element, x, y);
    forall x', y' | 0 <= x' < g.width && 0 <= y' < g.height
      ensures e.At(x', y', 0) <= g.At(x', y', 0) <= d.At(x', y', 0)
    {
      PassOrder(g, kernelSize, element, x', y');
    }
    PassMonotone(e, g, K, kernelSize, false, x, y);
    PassMonotone(g, d, K, kernelSize, true, x, y);
  }

  /** Each operation as passes over the gray image. */
  lemma MorphedPasses(img: Raster, kernelSize: nat, element: StructElement, luma: Luma)
    requires img.Valid()
    ensures var g, K := Grayscale(img, luma), Element(kernelSize, element);
      var e, d := Pass(g, K, kernelSize, true), Pass(g, K, kernelSize, false);
      && Morphed(img, Erode, kernelSize, element, luma) == e
      && Morphed(img, Dilate, kernelSize, element, luma) == d
      && Morphed(img, Open, kernelSize, element, luma) == Pass(e, K, kernelSize, false)
      && Morphed(img, Close, kernelSize, element, luma) == Pass(d, K, kernelSize, true)
  {
  }

  /** Pixel-wise, for `kernelSize >= 1`: ERODE is at most the gray image and
      DILATE at least it, and OPEN and CLOSE lie between ERODE and
      DILATE. */
  lemma MorphologyOrder(img: Raster, kernelSize: nat, element: StructElement, luma: Luma, x: int, y: int)
    requires img.Valid() && kernelSize >= 1 && img.InBounds(x, y)
    ensures var g := Grayscale(img, luma);
      var e, d := Morphed(img, Erode, kernelSize, element, luma), Morphed(img, Dilate, kernelSize, element, luma);
      var o, c := Morphed(img, Open, kernelSize, element, luma), Morphed(img, Close, kernelSize, element, luma);
      && e.At(x, y, 0) <= g.At(x, y, 0) <= d.At(x, y, 0)
      && e.At(x, y, 0) <= o.At(x, y, 0) <= d.At(x, y, 0)
      && e.At(x, y, 0) <= c.At(x, y, 0) <= d.At(x, y, 0)
  {
    MorphedPasses(img, kernelSize, element, luma);
    PassSandwich(Grayscale(img, luma), kernelSize, element, x, y);
  }
}
