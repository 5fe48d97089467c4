/** The second histogram implementation (lab2/src/Histogram.cpp): luminance
    or per-channel histograms, per-channel equalisation of the colour
    channels, and the contrast stretch whose bounds are read off the
    cumulative luminance histogram. */
module Histogram {
  import opened Pixels
  import opened Images
  import opened Distribution
  import ImageProcessor
  import PointOperations

  // ---------------------------------------------------------------------
  // compute / computeLuminance

  /** The luminance of `getPixelRGB(x, y)`: channels 0, 1 and 2 read as by
      `getPixel` (a missing channel reads 0) and weighted by `luma`, whose
      result is already within the clamp to [0, 255]. */
  function LumaOf(r: Raster, luma: Luma, x: int, y: int): Byte
    requires r.Valid()
  {
    luma(r.At(x, y, 0), r.At(x, y, 1), r.At(x, y, 2))
  }

  function LumaReader(r: Raster, luma: Luma): (int, int) -> Byte
    requires r.Valid()
  {
    (x, y) => LumaOf(r, luma, x, y)
  }

  /** What `compute(img, channel)` counts per pixel: the luminance for
      channel -1, otherwise `getPixel` of that channel. */
  function Reader(r: Raster, channel: int, luma: Luma): (int, int) -> Byte
    requires r.Valid()
  {
    if channel == -1 then LumaReader(r, luma) else ChannelReader(r, channel)
  }

  /** `compute`: one increment per pixel, of the luminance bin or of the
      channel's bin. The channel loop is the one `calculateHistogram` runs. */
  method Compute(img: Image, channel: int, luma: Luma) returns (hist: seq<int>)
    requires img.Valid()
    ensures hist == Hist(Scan(img.width, img.height, Reader(img.View(), channel, luma)))
  {
    if channel == -1 {
      hist := Tally(img.width, img.height, LumaReader(img.View(), luma));
    } else {
      hist := ImageProcessor.CalculateHistogram(img, channel);
    }
  }

  /** `computeLuminance` is `compute(img, -1)`. */
  method ComputeLuminance(img: Image, luma: Luma) returns (hist: seq<int>)
    requires img.Valid()
    ensures hist == Hist(Scan(img.width, img.height, LumaReader(img.View(), luma)))
  {
    hist := Compute(img, -1, luma);
  }

  /** Either way, the 256 bins count every pixel once. */
  lemma ComputeTotal(r: Raster, channel: int, luma: Luma)
    requires r.Valid()
    ensures |Hist(Scan(r.width, r.height, Reader(r, channel, luma)))| == 256
    ensures Sum(Hist(Scan(r.width, r.height, Reader(r, channel, luma)))) == r.width * r.height
  {
    ScanHistTotal(r.width, r.height, Reader(r, channel, luma));
  }

  // ---------------------------------------------------------------------
  // equalizeRGB

  /** The image `equalizeRGB` returns: channels below `min(3, channels)`
      each through the table of the input's own histogram of that channel;
      any further channel unchanged. */
  function EqualizedChannels(r: Raster): Raster
    requires r.Valid()
  {
    ChannelsUpTo(r, Min(3, r.channels), ImageProcessor.EqualizePlanes(r))
  }

  /** `equalizeRGB`: for each of the first `min(3, channels)` channels,
      histogram, CDF, `cdfMin` and table from the input, then a rewrite of
      that channel of the clone. */
  method EqualizeRGB(img: Image) returns (result: Image)
    requires img.Valid()
    ensures fresh(result) && result.Valid() && result.View() == EqualizedChannels(img.View())
  {
    ghost var src := img.View();
    result := img.Clone();
    ChannelsUpToNone(src, ImageProcessor.EqualizePlanes(src));
    var m := if img.channels < 3 then img.channels else 3;
    var c := 0;
    while c < m
      invariant 0 <= c <= m
      invariant fresh(result) && result.Valid()
      invariant result.View() == ChannelsUpTo(src, c, ImageProcessor.EqualizePlanes(src))
    {
      // compute(img, c) for c >= 0 never consults the luminance weights
      var hist := Compute(img, c, (r, g, b) => r);
      var totalPixels := img.width * img.height;
      var lut := EqualizationTable(hist, totalPixels);
      WriteChannel(result, c, Remapped(img.View(), c, lut));
      ChannelsUpToStep(src, c, ImageProcessor.EqualizePlanes(src));
      c := c + 1;
    }
  }

  /** Each of the first three channels goes through its own table, and
      further channels are untouched. */
  lemma EqualizedChannelsAt(r: Raster, x: int, y: int, k: int)
    requires r.Valid() && r.InBounds(x, y) && 0 <= k < r.channels
    ensures EqualizedChannels(r).At(x, y, k) ==
      if k < 3 then ImageProcessor.ChannelTable(r, k)[r.At(x, y, k)] else r.At(x, y, k)
  {
    ChannelsUpToAt(r, Min(3, r.channels), ImageProcessor.EqualizePlanes(r), x, y, k);
  }

  /** The near-copy agrees with `equalizeHistogramRGB` for three or more
      channels and with `equalizeHistogram` for one; only a two-channel
      image is treated differently (both channels equalised here, a gray
      result there). */
  lemma EqualizedChannelsAgree(r: Raster, luma: Luma)
    requires r.Valid()
    ensures r.channels >= 3 ==> EqualizedChannels(r) == ImageProcessor.EqualizedRGB(r, luma)
    ensures r.channels == 1 ==> EqualizedChannels(r) == ImageProcessor.EqualizedGray(r, luma)
  {
    if r.channels == 1 {
      var planes := ImageProcessor.EqualizePlanes(r);
      ChannelsUpToNone(r, planes);
      ChannelsUpToStep(r, 0, planes);
      assert Grayscale(r, luma) == r;
    }
  }

  // ---------------------------------------------------------------------
  // linearContrastManual

  /** `(val - minIn) * (255 / (maxIn - minIn))`, with 0 and 255 at and
      beyond the bounds: the stretch onto [0, 255]. */
  function StretchPixel(r: Raster, minIn: Byte, maxIn: Byte): (int, int, int) -> Byte
    requires r.Valid() && minIn < maxIn
  {
    (x, y, ch) => PointOperations.StretchValue(r.At(x, y, ch), minIn, maxIn, 0, 255)
  }

  /** The image `linearContrastManual` returns: unchanged when
      `minIn >= maxIn`, otherwise channels below `min(3, channels)`
      stretched. */
  function ManualStretched(r: Raster, minIn: Byte, maxIn: Byte): Raster
    requires r.Valid()
  {
    if minIn >= maxIn then r
    else PointOperations.Rewritten(r, Min(3, r.channels), StretchPixel(r, minIn, maxIn))
  }

  /** `linearContrastManual`: a clone, rewritten pixel by pixel in its
      first three channels when `minIn < maxIn`. */
  method LinearContrastManual(img: Image, minIn: Byte, maxIn: Byte) returns (result: Image)
    requires img.Valid()
    ensures fresh(result) && result.Valid() && result.View() == ManualStretched(img.View(), minIn, maxIn)
  {
    if minIn >= maxIn {
      result := img.Clone();
      return;
    }
    var m := if img.channels < 3 then img.channels else 3;
    result := PointOperations.RewriteChannels(img, m, StretchPixel(img.View(), minIn, maxIn));
  }

  /** Samples at or below `minIn` become 0, those at or above `maxIn`
      become 255, the stretch never reverses two samples, and a fourth
      channel is never touched. */
  lemma ManualStretchedAt(r: Raster, minIn: Byte, maxIn: Byte, x: int, y: int, k: int, x': int, y': int)
    requires r.Valid() && r.InBounds(x, y) && r.InBounds(x', y') && 0 <= k < r.channels
    ensures var v, u := r.At(x, y, k), ManualStretched(r, minIn, maxIn).At(x, y, k);
      && (minIn >= maxIn || k >= 3 ==> u == v)
      && (minIn < maxIn && k < 3 && v <= minIn ==> u == 0)
      && (minIn < maxIn && k < 3 && v >= maxIn ==> u == 255)
      && (v <= r.At(x', y', k) ==> u <= ManualStretched(r, minIn, maxIn).At(x', y', k))
  {
    if minIn < maxIn {
      var g := StretchPixel(r, minIn, maxIn);
      PointOperations.RewrittenAt(r, Min(3, r.channels), g, x, y, k);
      PointOperations.RewrittenAt(r, Min(3, r.channels), g, x', y', k);
      PointOperations.StretcherProperties(minIn, maxIn, 0, 255, r.At(x, y, k), r.At(x', y', k));
    }
  }

  /** For up to three channels this is `PointOperations::linearContrastManual`
      with the default output range [0, 255]. */
  lemma ManualStretchedAgrees(r: Raster, minIn: Byte, maxIn: Byte)
    requires r.Valid() && r.channels <= 3
    ensures ManualStretched(r, minIn, maxIn) == PointOperations.ManualContrasted(r, minIn, maxIn, 0, 255)
  {
    if minIn < maxIn {
      var a := ManualStretched(r, minIn, maxIn);
      var b := PointOperations.ManualContrasted(r, minIn, maxIn, 0, 255);
      forall x, y, k | 0 <= x < r.width && 0 <= y < r.height && 0 <= k < r.channels
        ensures a.At(x, y, k) == b.At(x, y, k)
      {
        PointOperations.RewrittenAt(r, Min(3, r.channels), StretchPixel(r, minIn, maxIn), x, y, k);
        PointOperations.MappedAt(r, PointOperations.Stretcher(minIn, maxIn, 0, 255), x, y, k);
      }
      Extensionality(a, b);
    }
  }

  // ---------------------------------------------------------------------
  // linearContrast

  /** The bottom scan: the first bin, from `i` up, whose cumulative count
      reaches `count`; 0 when none does. */
  function LowCut(hist: seq<int>, count: int, i: nat): Byte
    requires |hist| == 256 && i <= 256
    decreases 256 - i
  {
    if i == 256 then 0
    else if Cdf(hist)[i] >= count then i
    else LowCut(hist, count, i + 1)
  }

  /** The count of bins `i` to 255. */
  function Above(hist: seq<int>, i: int): int
    requires 0 <= i <= |hist|
  {
    Sum(hist[i..])
  }

  /** The top scan: the first bin, from `i` down, whose count from the top
      reaches `count`; 255 when none does. */
  function HighCut(hist: seq<int>, count: int, i: int): Byte
    requires |hist| == 256 && -1 <= i <= 255
    decreases i + 1
  {
    if i < 0 then 255
    else if Above(hist, i) >= count then i
    else HighCut(hist, count, i - 1)
  }

  /** The `cumSum` loop from 0 up with its early `break`. */
  method BottomScan(hist: seq<int>, minCount: int) returns (minVal: Byte)
    requires |hist| == 256
    ensures minVal == LowCut(hist, minCount, 0)
  {
    var cumSum := 0;
    minVal := 0;
    var i := 0;
    while i < 256
      invariant 0 <= i <= 256
      invariant cumSum == Sum(hist[..i])
      invariant LowCut(hist, minCount, 0) == LowCut(hist, minCount, i)
      invariant minVal == 0
    {
      SumPrefixStep(hist, i);
      cumSum := cumSum + hist[i];
      if cumSum >= minCount {
        minVal := i;
        break;
      }
      i := i + 1;
    }
  }

  lemma SumSingle(x: int)
    ensures Sum([x]) == x
  {
    assert [x][..0] == [];
  }

  /** Splitting a sequence splits its sum. */
  lemma {:induction false} SumSplit(a: seq<int>, i: nat)
    requires i <= |a|
    ensures Sum(a) == Sum(a[..i]) + Sum(a[i..])
  {
    if i < |a| {
      var n := |a| - 1;
      SumSplit(a[..n], i);
      assert a[..n][..i] == a[..i];
      assert a[i..][..|a[i..]| - 1] == a[..n][i..];
    } else {
      assert a[..i] == a;
      assert a[i..] == [];
    }
  }

  lemma AboveStep(hist: seq<int>, i: nat)
    requires i < |hist|
    ensures Above(hist, i) == hist[i] + Above(hist, i + 1)
  {
    SumSplit(hist[i..], 1);
    assert hist[i..][..1] == [hist[i]];
    assert hist[i..][1..] == hist[i + 1..];
    SumSingle(hist[i]);
  }

  /** The `cumSum` loop from 255 down with its early `break`. */
  method TopScan(hist: seq<int>, count: int) returns (maxVal: Byte)
    requires |hist| == 256
    ensures maxVal == HighCut(hist, count, 255)
  {
    var cumSum := 0;
    maxVal := 255;
    var i := 255;
    assert hist[256..] == [];
    while i >= 0
      invariant -1 <= i <= 255
      invariant cumSum == Above(hist, i + 1)
      invariant HighCut(hist, count, 255) == HighCut(hist, count, i)
      invariant maxVal == 255
    {
      AboveStep(hist, i);
      cumSum := cumSum + hist[i];
      if cumSum >= count {
        maxVal := i;
        break;
      }
      i := i - 1;
    }
  }

  /** The bottom scan stops at the first bin whose cumulative count reaches
      `count`; when no bin does, it leaves 0. */
  lemma {:induction false} LowCutFrom(hist: seq<int>, count: int, i: nat)
    requires |hist| == 256 && i <= 256
    ensures var lo := LowCut(hist, count, i);
      || (i <= lo && Cdf(hist)[lo] >= count && forall j :: i <= j < lo ==> Cdf(hist)[j] < count)
      || (lo == 0 && forall j :: i <= j < 256 ==> Cdf(hist)[j] < count)
    decreases 256 - i
  {
    if i < 256 && Cdf(hist)[i] < count {
      LowCutFrom(hist, count, i + 1);
    }
  }

  /** The top scan stops at the first bin from the top whose count from the
      top reaches `count`; when no bin does, it leaves 255. */
  lemma {:induction false} HighCutFrom(hist: seq<int>, count: int, i: int)
    requires |hist| == 256 && -1 <= i <= 255
    ensures var hi := HighCut(hist, count, i);
      || (hi <= i && Above(hist, hi) >= count && forall j :: hi < j <= i ==> Above(hist, j) < count)
      || (hi == 255 && forall j :: 0 <= j <= i ==> Above(hist, j) < count)
    decreases i + 1
  {
    if i >= 0 && Above(hist, i) < count {
      HighCutFrom(hist, count, i - 1);
    }
  }

  /** `minVal`: the bottom scan towards `total * minPercentile / 100`
      (truncated) pixels. */
  function LowBound(hist: seq<int>, total: nat, minPercentile: real): Byte
    requires |hist| == 256
  {
    LowCut(hist, PointOperations.PercentileIndex(total, minPercentile), 0)
  }

  /** `maxVal`: the top scan towards `total - total * maxPercentile / 100`
      (truncated) pixels. */
  function HighBound(hist: seq<int>, total: nat, maxPercentile: real): Byte
    requires |hist| == 256
  {
    HighCut(hist, total - PointOperations.PercentileIndex(total, maxPercentile), 255)
  }

  /** The image `linearContrast` returns. */
  function HistContrasted(r: Raster, minPercentile: real, maxPercentile: real, luma: Luma): Raster
    requires r.Valid()
  {
    var hist := Hist(Scan(r.width, r.height, LumaReader(r, luma)));
    var total := r.width * r.height;
    ManualStretched(r, LowBound(hist, total, minPercentile), HighBound(hist, total, maxPercentile))
  }

  /** The two target counts `total * percentile / 100` (truncated) and the
      bottom and top scans towards them. */
  method StretchBounds(hist: seq<int>, totalPixels: nat, minPercentile: real, maxPercentile: real) returns (minVal: Byte, maxVal: Byte)
    requires |hist| == 256
    ensures minVal == LowBound(hist, totalPixels, minPercentile)
    ensures maxVal == HighBound(hist, totalPixels, maxPercentile)
  {
    var minCount := PointOperations.PercentileIndex(totalPixels, minPercentile);
    var maxCount := PointOperations.PercentileIndex(totalPixels, maxPercentile);
    minVal := BottomScan(hist, minCount);
    maxVal := TopScan(hist, totalPixels - maxCount);
  }

  /** `linearContrast`: the luminance histogram, the stretch bounds read off
      it, and the manual stretch. */
  method LinearContrast(img: Image, minPercentile: real, maxPercentile: real, luma: Luma) returns (result: Image)
    requires img.Valid()
    ensures fresh(result) && result.Valid() && result.View() == HistContrasted(img.View(), minPercentile, maxPercentile, luma)
  {
    var hist := ComputeLuminance(img, luma);
    var minVal, maxVal := StretchBounds(hist, img.width * img.height, minPercentile, maxPercentile);
    result := LinearContrastManual(img, minVal, maxVal);
  }

  /** With `0 <= minCount <= maxCount` the two scans never cross: the
      intensity the bottom scan stops at already has at least
      `total - maxCount` samples at or above it. */
  lemma CutsOrdered(hist: seq<int>, total: int, minCount: int, maxCount: int)
    requires |hist| == 256 && Sum(hist) == total && 0 <= minCount <= maxCount
    ensures LowCut(hist, minCount, 0) <= HighCut(hist, total - maxCount, 255)
  {
    var lo := LowCut(hist, minCount, 0);
    LowCutAbove(hist, total, minCount);
    assert Above(hist, lo) >= total - maxCount;
    HighCutFrom(hist, total - maxCount, 255);
  }

  /** Fewer than `minCount` samples lie below the bottom cut. */
  lemma LowCutAbove(hist: seq<int>, total: int, minCount: int)
    requires |hist| == 256 && Sum(hist) == total && 0 <= minCount
    ensures Above(hist, LowCut(hist, minCount, 0)) > total - minCount ||
      (LowCut(hist, minCount, 0) == 0 && Above(hist, 0) == total)
  {
    var lo := LowCut(hist, minCount, 0);
    LowCutFrom(hist, minCount, 0);
    SumSplit(hist, lo);
    if lo > 0 {
      assert Cdf(hist)[lo - 1] == Sum(hist[..lo]);
    } else {
      assert hist[..0] == [];
    }
  }

  /** For percentiles `0 <= minPercentile <= maxPercentile` of a
      histogram of `total` pixels the stretch bounds are ordered. */
  lemma BoundsOrdered(hist: seq<int>, total: nat, minPercentile: real, maxPercentile: real)
    requires |hist| == 256 && Sum(hist) == total && 0.0 <= minPercentile <= maxPercentile
    ensures LowBound(hist, total, minPercentile) <= HighBound(hist, total, maxPercentile)
  {
    var minCount := PointOperations.PercentileIndex(total, minPercentile);
    var maxCount := PointOperations.PercentileIndex(total, maxPercentile);
    assert 0 <= minCount <= maxCount by {
      PointOperations.PercentileIndexOrder(total, minPercentile, maxPercentile);
    }
    CutsOrdered(hist, total, minCount, maxCount);
  }

  /** So `linearContrast` never passes `minIn > maxIn` to the manual
      stretch. */
  lemma HistContrastBounds(r: Raster, minPercentile: real, maxPercentile: real, luma: Luma)
    requires r.Valid() && 0.0 <= minPercentile <= maxPercentile
    ensures var hist := Hist(Scan(r.width, r.height, LumaReader(r, luma)));
      LowBound(hist, r.width * r.height, minPercentile) <= HighBound(hist, r.width * r.height, maxPercentile)
  {
    ScanHistTotal(r.width, r.height, LumaReader(r, luma));
    BoundsOrdered(Hist(Scan(r.width, r.height, LumaReader(r, luma))), r.width * r.height, minPercentile, maxPercentile);
  }
}
