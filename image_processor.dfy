/** `ImageProcessor` (lab2/src/ImageProcessor.cpp): histogram equalisation,
    automatic contrast stretching, the rank filters and integer-kernel
    convolution, all with replicate border. */
module ImageProcessor {
  import opened Pixels
  import opened Images
  import opened Distribution
  import opened Windows

  // ---------------------------------------------------------------------
  // Histogram and equalisation

  /** `calculateHistogram(img, channel)`: the 256-bin histogram of one
      channel read by `getPixel` (all zero reads for a missing channel). */
  method CalculateHistogram(img: Image, channel: int) returns (hist: seq<int>)
    requires img.Valid()
    ensures hist == Hist(Column(img.View(), channel))
  {
    var src := img.View();
    hist := Tally(img.width, img.height, ChannelReader(src, channel));
  }

  /** The histogram has one count per pixel. */
  lemma CalculateHistogramTotal(r: Raster, channel: int)
    requires r.Valid()
    ensures Sum(Hist(Column(r, channel))) == r.width * r.height
  {
    ScanHistTotal(r.width, r.height, ChannelReader(r, channel));
  }

  /** The table that equalises channel `ch` of `r`. */
  function ChannelTable(r: Raster, ch: int): seq<Byte>
    requires r.Valid()
  {
    EqualizeTable(Hist(Column(r, ch)), r.width * r.height)
  }

  /** The image `equalizeHistogram` returns. */
  function EqualizedGray(img: Raster, luma: Luma): Raster
    requires img.Valid()
  {
    var g := Grayscale(img, luma);
    WithChannel(g, 0, Remapped(g, 0, ChannelTable(g, 0)))
  }

  /** `equalizeHistogram`: reduce to gray (a clone when already gray), build
      histogram, CDF, `cdfMin` and the table, and remap channel 0 of a clone
      of the gray image in place. */
  method EqualizeHistogram(img: Image, luma: Luma) returns (result: Image)
    requires img.Valid()
    ensures fresh(result) && result.Valid() && result.View() == EqualizedGray(img.View(), luma)
  {
    var gray: Image;
    if img.channels == 1 {
      gray := img.Clone();
    } else {
      gray := img.ToGrayscale(luma);
    }
    var histogram := CalculateHistogram(gray, 0);
    var totalPixels := gray.width * gray.height;
    var lut := EqualizationTable(histogram, totalPixels);
    result := gray.Clone();
    WriteChannel(result, 0, Remapped(result.View(), 0, lut));
  }

  /** Each output pixel is the table entry of its gray value, and the
      table is non-decreasing over the gray values present: equalisation
      keeps the order of intensities, sends the darkest present one to 0
      and the brightest to 255 when there are two or more, and keeps a
      one-intensity image as it is. */
  lemma EqualizedGrayAt(img: Raster, luma: Luma, x: int, y: int, x': int, y': int)
    requires img.Valid() && img.InBounds(x, y) && img.InBounds(x', y')
    ensures var g := Grayscale(img, luma);
      var e := EqualizedGray(img, luma);
      && |Column(g, 0)| > 0 && |ChannelTable(g, 0)| == 256
      && e.At(x, y, 0) == ChannelTable(g, 0)[g.At(x, y, 0)]
      && (g.At(x, y, 0) <= g.At(x', y', 0) ==> e.At(x, y, 0) <= e.At(x', y', 0))
      && (Lowest(Column(g, 0)) < Highest(Column(g, 0)) && g.At(x, y, 0) == Lowest(Column(g, 0)) ==> e.At(x, y, 0) == 0)
      && (Lowest(Column(g, 0)) < Highest(Column(g, 0)) && g.At(x, y, 0) == Highest(Column(g, 0)) ==> e.At(x, y, 0) == 255)
      && (Lowest(Column(g, 0)) == Highest(Column(g, 0)) ==> e.At(x, y, 0) == g.At(x, y, 0))
  {
    var g := Grayscale(img, luma);
    var s := Column(g, 0);
    WithChannelAt(g, 0, Remapped(g, 0, ChannelTable(g, 0)), x, y, 0);
    WithChannelAt(g, 0, Remapped(g, 0, ChannelTable(g, 0)), x', y', 0);
    ColumnHas(g, 0, x, y);
    ColumnHas(g, 0, x', y');
    MulMono(1, g.height, g.width);
    assert |s| == g.width * g.height > 0;
    if g.At(x, y, 0) <= g.At(x', y', 0) {
      EqualizeMonotone(s, g.At(x, y, 0), g.At(x', y', 0));
    }
    if Lowest(s) < Highest(s) {
      EqualizeLowest(s);
      EqualizeHighest(s);
    } else {
      EqualizeSingleIntensity(s, g.At(x, y, 0));
    }
  }

  /** The planes `equalizeHistogramRGB` writes: channel `k` through the
      table of the input's own channel `k`. */
  function EqualizePlanes(r: Raster): int -> ((int, int) -> Byte)
    requires r.Valid()
  {
    k => Remapped(r, k, ChannelTable(r, k))
  }

  /** The image `equalizeHistogramRGB` returns. */
  function EqualizedRGB(img: Raster, luma: Luma): Raster
    requires img.Valid()
  {
    if img.channels < 3 then EqualizedGray(img, luma)
    else ChannelsUpTo(img, 3, EqualizePlanes(img))
  }

  /** `equalizeHistogramRGB`: below three channels the gray equalisation;
      otherwise channels 0, 1 and 2 of a clone are each remapped in place by
      the table of the input's histogram of that channel. */
  method EqualizeHistogramRGB(img: Image, luma: Luma) returns (result: Image)
    requires img.Valid()
    ensures fresh(result) && result.Valid() && result.View() == EqualizedRGB(img.View(), luma)
  {
    if img.channels < 3 {
      result := EqualizeHistogram(img, luma);
      return;
    }
    ghost var src := img.View();
    result := img.Clone();
    ChannelsUpToNone(src, EqualizePlanes(src));
    var channel := 0;
    while channel < 3
      invariant 0 <= channel <= 3
      invariant fresh(result) && result.Valid()
      invariant result.View() == ChannelsUpTo(src, channel, EqualizePlanes(src))
    {
      var histogram := CalculateHistogram(img, channel);
      var totalPixels := img.width * img.height;
      var lut := EqualizationTable(histogram, totalPixels);
      ghost var before := result.View();
      WriteChannel(result, channel, Remapped(result.View(), channel, lut));
      ReadUnwritten(src, channel, EqualizePlanes(src), lut);
      WithChannelCongruent(before, channel, Remapped(before, channel, lut), EqualizePlanes(src)(channel));
      ChannelsUpToStep(src, channel, EqualizePlanes(src));
      channel := channel + 1;
    }
  }

  /** Channel `n` has not been written after `n` rounds, so reading it
      through a table is reading the input through it. */
  lemma ReadUnwritten(r: Raster, n: int, planes: int -> ((int, int) -> Byte), lut: seq<Byte>)
    requires r.Valid() && n >= 0 && |lut| == 256
    ensures forall x, y :: 0 <= x < r.width && 0 <= y < r.height ==>
      Remapped(ChannelsUpTo(r, n, planes), n, lut)(x, y) == Remapped(r, n, lut)(x, y)
  {
    forall x, y | 0 <= x < r.width && 0 <= y < r.height
      ensures Remapped(ChannelsUpTo(r, n, planes), n, lut)(x, y) == Remapped(r, n, lut)(x, y)
    {
      if n < r.channels {
        ChannelsUpToAt(r, n, planes, x, y, n);
      }
    }
  }

  /** `WithChannel` depends only on the values of the plane. */
  lemma WithChannelCongruent(r: Raster, ch: int, f: (int, int) -> Byte, g: (int, int) -> Byte)
    requires r.Valid()
    requires forall x, y :: 0 <= x < r.width && 0 <= y < r.height ==> f(x, y) == g(x, y)
    ensures WithChannel(r, ch, f) == WithChannel(r, ch, g)
  {
    forall x, y, k | 0 <= x < r.width && 0 <= y < r.height && 0 <= k < r.channels
      ensures WithChannel(r, ch, f).At(x, y, k) == WithChannel(r, ch, g).At(x, y, k)
    {
      WithChannelAt(r, ch, f, x, y, k);
      WithChannelAt(r, ch, g, x, y, k);
    }
    Extensionality(WithChannel(r, ch, f), WithChannel(r, ch, g));
  }

  /** With three or more channels, channels 0..2 go through their own
      tables and every further channel is unchanged. */
  lemma EqualizedRGBAt(img: Raster, luma: Luma, x: int, y: int, k: int)
    requires img.Valid() && img.channels >= 3 && img.InBounds(x, y) && 0 <= k < img.channels
    ensures EqualizedRGB(img, luma).At(x, y, k) ==
      if k < 3 then ChannelTable(img, k)[img.At(x, y, k)] else img.At(x, y, k)
  {
    ChannelsUpToAt(img, 3, EqualizePlanes(img), x, y, k);
  }

  // ---------------------------------------------------------------------
  // Automatic linear contrast

  /** The running `std::min`/`std::max` over the y/x scan of `g`. */
  method ScanExtremes(w: nat, h: nat, g: (int, int) -> Byte) returns (lo: Byte, hi: Byte)
    ensures lo == MinOf(Scan(w, h, g)) && hi == MaxOf(Scan(w, h, g))
  {
    lo, hi := 255, 0;
    ghost var s := Scan(w, h, g);
    var y := 0;
    while y < h
      invariant 0 <= y <= h && y * w <= |s|
      invariant lo == MinOf(s[..y * w]) && hi == MaxOf(s[..y * w])
    {
      RowEnd(w, h, y);
      lo, hi := RowExtremes(w, h, g, y, lo, hi);
      y := y + 1;
    }
    assert s[..h * w] == s;
  }

  /** The x loop of row `y`: the running extremes of the scan so far grow
      by the row's samples. */
  method RowExtremes(w: nat, h: nat, g: (int, int) -> Byte, y: nat, lo0: Byte, hi0: Byte) returns (lo: Byte, hi: Byte)
    requires y < h && y * w + w <= w * h
    requires lo0 == MinOf(Scan(w, h, g)[..y * w]) && hi0 == MaxOf(Scan(w, h, g)[..y * w])
    ensures lo == MinOf(Scan(w, h, g)[..y * w + w]) && hi == MaxOf(Scan(w, h, g)[..y * w + w])
  {
    ghost var s := Scan(w, h, g);
    lo, hi := lo0, hi0;
    var x := 0;
    while x < w
      invariant 0 <= x <= w
      invariant lo == MinOf(s[..y * w + x]) && hi == MaxOf(s[..y * w + x])
    {
      var v := g(x, y);
      ScanAt(w, h, g, x, y);
      ExtremesPrefix(s, y * w + x);
      lo := if v < lo then v else lo;
      hi := if v > hi then v else hi;
      x := x + 1;
    }
  }

  /** `(value - minVal) / (maxVal - minVal) * 255`, truncated. */
  function Stretch(v: Byte, lo: int, hi: int): Byte
    requires lo < hi
  {
    ToByte((v - lo) * 255 / (hi - lo))
  }

  lemma StretchEnds(lo: Byte, hi: Byte)
    requires lo < hi
    ensures Stretch(lo, lo, hi) == 0 && Stretch(hi, lo, hi) == 255
  {
    assert (hi - lo) * 255 / (hi - lo) == 255 by {
      DivModUnique(255, hi - lo, 0);
    }
  }

  /** Channel `k` after `autoLinearContrast`: stretched from its own
      [min, max] to [0, 255], or unchanged when min == max. */
  function ContrastPlanes(r: Raster): int -> ((int, int) -> Byte)
    requires r.Valid()
  {
    k =>
      var lo, hi := MinOf(Column(r, k)), MaxOf(Column(r, k));
      if lo < hi then (x, y) => Stretch(r.At(x, y, k), lo, hi)
      else ChannelReader(r, k)
  }

  function AutoContrasted(r: Raster): Raster
    requires r.Valid()
  {
    ChannelsUpTo(r, r.channels, ContrastPlanes(r))
  }

  /** `autoLinearContrast`: for each channel, find its minimum and maximum,
      and when they differ rewrite that channel of a clone. */
  method AutoLinearContrast(img: Image) returns (result: Image)
    requires img.Valid()
    ensures fresh(result) && result.Valid() && result.View() == AutoContrasted(img.View())
  {
    var src := img.View();
    result := img.Clone();
    ChannelsUpToNone(src, ContrastPlanes(src));
    var c := 0;
    while c < img.channels
      invariant 0 <= c <= img.channels
      invariant fresh(result) && result.Valid()
      invariant result.View() == ChannelsUpTo(src, c, ContrastPlanes(src))
    {
      var minVal, maxVal := ScanExtremes(img.width, img.height, ChannelReader(src, c));
      ghost var before := result.View();
      if maxVal > minVal {
        WriteChannel(result, c, (x, y) => Stretch(src.At(x, y, c), minVal, maxVal));
        WithChannelCongruent(before, c, (x, y) => Stretch(src.At(x, y, c), minVal, maxVal), ContrastPlanes(src)(c));
      } else {
        forall x, y | 0 <= x < src.width && 0 <= y < src.height
          ensures ContrastPlanes(src)(c)(x, y) == before.At(x, y, c)
        {
          ChannelsUpToAt(src, c, ContrastPlanes(src), x, y, c);
        }
        WithChannelSame(before, c, ContrastPlanes(src)(c));
      }
      ChannelsUpToStep(src, c, ContrastPlanes(src));
      c := c + 1;
    }
  }

  /** A channel whose minimum and maximum differ has its minimum sent to 0
      and its maximum to 255; a flat channel is unchanged. */
  lemma AutoContrastedAt(r: Raster, x: int, y: int, k: int)
    requires r.Valid() && r.InBounds(x, y) && 0 <= k < r.channels
    ensures var lo, hi := MinOf(Column(r, k)), MaxOf(Column(r, k));
      && (lo < hi && r.At(x, y, k) == lo ==> AutoContrasted(r).At(x, y, k) == 0)
      && (lo < hi && r.At(x, y, k) == hi ==> AutoContrasted(r).At(x, y, k) == 255)
      && (lo >= hi ==> AutoContrasted(r).At(x, y, k) == r.At(x, y, k))
  {
    ChannelsUpToAt(r, r.channels, ContrastPlanes(r), x, y, k);
    var lo, hi := MinOf(Column(r, k)), MaxOf(Column(r, k));
    if lo < hi {
      StretchEnds(lo, hi);
    }
  }

  // ---------------------------------------------------------------------
  // Rank filters

  datatype Rank = MedianRank | MinRank | MaxRank

  /** An even kernel size is bumped to the next odd one. */
  function OddSize(kernelSize: int): int
  {
    if kernelSize % 2 == 0 then kernelSize + 1 else kernelSize
  }

  /** The value a rank filter of half-width `off` writes at (x, y, ch). */
  function RankPixel(r: Raster, off: nat, rank: Rank): (int, int, int) -> Byte
    requires r.Valid()
  {
    (x, y, ch) =>
      match rank
      case MedianRank => Median(Window(r, x, y, ch, off))
      case MinRank => MinOf(Window(r, x, y, ch, off))
      case MaxRank => MaxOf(Window(r, x, y, ch, off))
  }

  /** The ky/kx loop of `medianFilter` that pushes the clamped neighbours
      into `values`. */
  method GatherWindow(r: Raster, x: int, y: int, ch: int, offset: nat) returns (values: seq<Byte>)
    requires r.Valid()
    ensures values == Window(r, x, y, ch, offset)
  {
    values := [];
    ghost var s := Window(r, x, y, ch, offset);
    ghost var n := Side(offset);
    ghost var k := 0;
    var ky := -(offset as int);
    while ky <= offset
      invariant -(offset as int) <= ky <= offset + 1
      invariant k == (ky + offset) * n && k <= |s|
      invariant values == s[..k]
    {
      var kx := -(offset as int);
      while kx <= offset
        invariant -(offset as int) <= kx <= offset + 1
        invariant k == (ky + offset) * n + (kx + offset) && k <= |s|
        invariant values == s[..k]
      {
        var px := ClampCoord(x + kx, r.width);
        var py := ClampCoord(y + ky, r.height);
        WindowStep(r, x, y, ch, offset, kx, ky, k);
        values := values + [r.At(px, py, ch)];
        k := k + 1;
        kx := kx + 1;
      }
      RowStep(ky + offset, n);
      ky := ky + 1;
    }
    assert s[..k] == s;
  }

  /** The `minVal = std::min(minVal, v)` loop of `minFilter` over the
      window of (x, y, ch), starting from 255: pass `i` is row `ky = i - offset`. */
  method WindowMin(r: Raster, x: int, y: int, ch: int, offset: nat) returns (v: Byte)
    requires r.Valid()
    ensures v == MinOf(Window(r, x, y, ch, offset))
  {
    v := 255;
    for i := 0 to Side(offset)
      invariant v == MinOf(Rows(r, x, y, ch, offset, i))
    {
      var ky := i - offset;
      v := WindowRowMin(r, x, y, ch, offset, ky, v);
      RowsMinStep(r, x, y, ch, offset, i, ky);
    }
    WindowMinIs(r, x, y, ch, offset, v);
  }

  /** The inner `kx` loop of `minFilter` over row `ky` of the window,
      continuing from the running value `v0`. */
  method WindowRowMin(r: Raster, x: int, y: int, ch: int, offset: nat, ky: int, v0: Byte) returns (v: Byte)
    requires r.Valid()
    ensures v == Min(v0, MinOf(WindowRow(r, x, y, ch, offset, ky)))
  {
    ghost var row := WindowRow(r, x, y, ch, offset, ky);
    v := v0;
    for j := 0 to Side(offset)
      invariant v == Min(v0, MinOf(row[..j]))
    {
      var kx := j - offset;
      var p := r.At(ClampCoord(x + kx, r.width), ClampCoord(y + ky, r.height), ch);
      assert row[j] == p;
      ExtremesPrefix(row, j);
      v := if p < v then p else v;
    }
    assert row[..Side(offset)] == row;
  }

  /** The `maxVal = std::max(maxVal, v)` loop of `maxFilter` over the
      window of (x, y, ch), starting from 0: pass `i` is row `ky = i - offset`. */
  method WindowMax(r: Raster, x: int, y: int, ch: int, offset: nat) returns (v: Byte)
    requires r.Valid()
    ensures v == MaxOf(Window(r, x, y, ch, offset))
  {
    v := 0;
    for i := 0 to Side(offset)
      invariant v == MaxOf(Rows(r, x, y, ch, offset, i))
    {
      var ky := i - offset;
      v := WindowRowMax(r, x, y, ch, offset, ky, v);
      RowsMaxStep(r, x, y, ch, offset, i, ky);
    }
    WindowMaxIs(r, x, y, ch, offset, v);
  }

  /** The inner `kx` loop of `maxFilter` over row `ky` of the window,
      continuing from the running value `v0`. */
  method WindowRowMax(r: Raster, x: int, y: int, ch: int, offset: nat, ky: int, v0: Byte) returns (v: Byte)
    requires r.Valid()
    ensures v == Max(v0, MaxOf(WindowRow(r, x, y, ch, offset, ky)))
  {
    ghost var row := WindowRow(r, x, y, ch, offset, ky);
    v := v0;
    for j := 0 to Side(offset)
      invariant v == Max(v0, MaxOf(row[..j]))
    {
      var kx := j - offset;
      var p := r.At(ClampCoord(x + kx, r.width), ClampCoord(y + ky, r.height), ch);
      assert row[j] == p;
      ExtremesPrefix(row, j);
      v := if p > v then p else v;
    }
    assert row[..Side(offset)] == row;
  }

  /** The per-sample body of the three rank filters. */
  method RankAt(r: Raster, x: int, y: int, ch: int, offset: nat, rank: Rank) returns (v: Byte)
    requires r.Valid()
    ensures v == RankPixel(r, offset, rank)(x, y, ch)
  {
    match rank
    case MedianRank =>
      var values := GatherWindow(r, x, y, ch, offset);
      var buffer := new Byte[|values|](i requires 0 <= i < |values| => values[i]);
      assert buffer[..] == values;
      v := GetMedian(buffer);
    case MinRank =>
      v := WindowMin(r, x, y, ch, offset);
    case MaxRank =>
      v := WindowMax(r, x, y, ch, offset);
  }

  /** The image a rank filter returns. */
  function RankFiltered(r: Raster, kernelSize: nat, rank: Rank): Raster
    requires r.Valid()
  {
    Generate(r.width, r.height, r.channels, RankPixel(r, OddSize(kernelSize) / 2, rank))
  }

  /** The shared body of `medianFilter`, `minFilter` and `maxFilter`: bump
      the size to odd, clone, and set every sample of the clone to the rank
      value of its window. */
  method RankFilter(img: Image, kernelSize: nat, rank: Rank) returns (result: Image)
    requires img.Valid()
    ensures fresh(result) && result.Valid() && result.View() == RankFiltered(img.View(), kernelSize, rank)
  {
    var size := OddSize(kernelSize);
    var src := img.View();
    var w, h, c := src.width, src.height, src.channels;
    result := img.Clone();
    var offset := size / 2;
    ghost var target := Generate(w, h, c, RankPixel(src, offset, rank));
    ghost var base := result.data;
    var y := 0;
    while y < h
      invariant 0 <= y <= h
      invariant fresh(result) && result.Valid() && result.width == w && result.height == h && result.channels == c
      invariant Progress(result.data, target.samples, base, Idx(w, c, 0, y, 0))
    {
      RankRow(result, src, offset, rank, y, target, base);
      y := y + 1;
    }
    IdxStep(w, c, 0, h);
    ProgressDone(result.data, target.samples, base);
  }

  /** The `x` and channel loops of `RankFilter` over row `y`. */
  method RankRow(result: Image, src: Raster, offset: nat, rank: Rank, y: nat, ghost target: Raster, ghost base: seq<Byte>)
    requires src.Valid() && y < src.height && target == Generate(src.width, src.height, src.channels, RankPixel(src, offset, rank))
    requires result.Valid() && result.width == src.width && result.height == src.height && result.channels == src.channels
    requires Progress(result.data, target.samples, base, Idx(src.width, src.channels, 0, y, 0))
    modifies result
    ensures result.Valid() && result.width == src.width && result.height == src.height && result.channels == src.channels
    ensures Progress(result.data, target.samples, base, Idx(src.width, src.channels, 0, y + 1, 0))
  {
    var w, h, c := src.width, src.height, src.channels;
    ghost var k := Idx(w, c, 0, y, 0);
    var x := 0;
    while x < w
      invariant 0 <= x <= w
      invariant result.Valid() && result.width == w && result.height == h && result.channels == c
      invariant k == Idx(w, c, x, y, 0)
      invariant Progress(result.data, target.samples, base, k)
    {
      var ch := 0;
      while ch < c
        invariant 0 <= ch <= c
        invariant result.Valid() && result.width == w && result.height == h && result.channels == c
        invariant k == Idx(w, c, x, y, ch)
        invariant Progress(result.data, target.samples, base, k)
      {
        var v := RankAt(src, x, y, ch, offset, rank);
        GenerateAt(w, h, c, RankPixel(src, offset, rank), x, y, ch);
        ProgressStep(result.data, target.samples, base, k, v);
        result.SetPixel(x, y, ch, v);
        k := k + 1;
        ch := ch + 1;
      }
      IdxStep(w, c, x, y);
      x := x + 1;
    }
    IdxStep(w, c, 0, y);
  }

  /** `medianFilter`. */
  method MedianFilter(img: Image, kernelSize: nat) returns (result: Image)
    requires img.Valid()
    ensures fresh(result) && result.Valid() && result.View() == RankFiltered(img.View(), kernelSize, MedianRank)
  {
    result := RankFilter(img, kernelSize, MedianRank);
  }

  /** `minFilter`. */
  method MinFilter(img: Image, kernelSize: nat) returns (result: Image)
    requires img.Valid()
    ensures fresh(result) && result.Valid() && result.View() == RankFiltered(img.View(), kernelSize, MinRank)
  {
    result := RankFilter(img, kernelSize, MinRank);
  }

  /** `maxFilter`. */
  method MaxFilter(img: Image, kernelSize: nat) returns (result: Image)
    requires img.Valid()
    ensures fresh(result) && result.Valid() && result.View() == RankFiltered(img.View(), kernelSize, MaxRank)
  {
    result := RankFilter(img, kernelSize, MaxRank);
  }

  /** Pixel-wise, the minimum filter never exceeds the input, the maximum
      filter is never below it, and the median lies between the two. */
  lemma RankFilterOrder(r: Raster, kernelSize: nat, x: int, y: int, ch: int)
    requires r.Valid() && r.InBounds(x, y) && 0 <= ch < r.channels
    ensures RankFiltered(r, kernelSize, MinRank).At(x, y, ch) <= r.At(x, y, ch)
    ensures r.At(x, y, ch) <= RankFiltered(r, kernelSize, MaxRank).At(x, y, ch)
    ensures RankFiltered(r, kernelSize, MinRank).At(x, y, ch) <= RankFiltered(r, kernelSize, MedianRank).At(x, y, ch)
    ensures RankFiltered(r, kernelSize, MedianRank).At(x, y, ch) <= RankFiltered(r, kernelSize, MaxRank).At(x, y, ch)
  {
    var off := OddSize(kernelSize) / 2;
    var s := Window(r, x, y, ch, off);
    GenerateAt(r.width, r.height, r.channels, RankPixel(r, off, MinRank), x, y, ch);
    GenerateAt(r.width, r.height, r.channels, RankPixel(r, off, MaxRank), x, y, ch);
    GenerateAt(r.width, r.height, r.channels, RankPixel(r, off, MedianRank), x, y, ch);
    WindowCentre(r, x, y, ch, off);
    MinOfBounds(s);
    MaxOfBounds(s);
    MedianBounds(s);
  }

  // ---------------------------------------------------------------------
  // Convolution with integer kernels

  /** A `kernel.size() x kernel.size()` matrix, as `kernel[ky][kx]` needs. */
  predicate Square(kernel: seq<seq<int>>)
  {
    forall i :: 0 <= i < |kernel| ==> |kernel[i]| == |kernel|
  }

  const SharpenKernel: seq<seq<int>> := [[0, -1, 0], [-1, 5, -1], [0, -1, 0]]
  const LaplacianKernel: seq<seq<int>> := [[-1, -1, -1], [-1, 8, -1], [-1, -1, -1]]

  /** Kernel cell `i` in row-major order. */
  function Cell(kernel: seq<seq<int>>, i: nat): int
    requires Square(kernel) && i < |kernel| * |kernel|
  {
    var n := |kernel|;
    QuotientBound(i, n, n);
    kernel[i / n][i % n]
  }

  /** Term `i` of the convolution sum at (x, y, ch): the clamped neighbour
      at `(x + kx - offset, y + ky - offset)` times `kernel[ky][kx]`. */
  function Term(r: Raster, kernel: seq<seq<int>>, x: int, y: int, ch: int, i: nat): int
    requires r.Valid() && Square(kernel) && i < |kernel| * |kernel|
  {
    var n := |kernel|;
    var off := n / 2;
    r.At(ClampCoord(x + i % n - off, r.width), ClampCoord(y + i / n - off, r.height), ch) * Cell(kernel, i)
  }

  /** The first `k` terms of the convolution sum, in ky/kx loop order. */
  function ConvSum(r: Raster, kernel: seq<seq<int>>, x: int, y: int, ch: int, k: nat): int
    requires r.Valid() && Square(kernel) && k <= |kernel| * |kernel|
  {
    if k == 0 then 0 else ConvSum(r, kernel, x, y, ch, k - 1) + Term(r, kernel, x, y, ch, k - 1)
  }

  /** The first `k` kernel cells added up. */
  function Weight(kernel: seq<seq<int>>, k: nat): int
    requires Square(kernel) && k <= |kernel| * |kernel|
  {
    if k == 0 then 0 else Weight(kernel, k - 1) + Cell(kernel, k - 1)
  }

  /** The value `applyConvolution` writes at (x, y, ch): the whole sum
      clamped to [0, 255]. */
  function ConvValue(r: Raster, kernel: seq<seq<int>>, x: int, y: int, ch: int): Byte
    requires r.Valid() && Square(kernel)
  {
    ToByte(ConvSum(r, kernel, x, y, ch, |kernel| * |kernel|))
  }

  function ConvPixel(r: Raster, kernel: seq<seq<int>>): (int, int, int) -> Byte
    requires r.Valid() && Square(kernel)
  {
    (x, y, ch) => ConvValue(r, kernel, x, y, ch)
  }

  /** Term `ky * size + kx` is the product the loop adds at (ky, kx). */
  lemma TermAt(r: Raster, kernel: seq<seq<int>>, x: int, y: int, ch: int, ky: nat, kx: nat)
    requires r.Valid() && Square(kernel) && ky < |kernel| && kx < |kernel|
    ensures ky * |kernel| + kx < |kernel| * |kernel|
    ensures Term(r, kernel, x, y, ch, ky * |kernel| + kx) ==
      r.At(ClampCoord(x + kx - |kernel| / 2, r.width), ClampCoord(y + ky - |kernel| / 2, r.height), ch) * kernel[ky][kx]
  {
    var n := |kernel|;
    IdxBound(n, n, 1, kx, ky, 0);
    DivModUnique(ky, n, kx);
  }

  function Convolved(r: Raster, kernel: seq<seq<int>>): Raster
    requires r.Valid() && Square(kernel)
  {
    Generate(r.width, r.height, r.channels, ConvPixel(r, kernel))
  }

  /** The ky/kx accumulation loop of `applyConvolution` at one sample. */
  method ConvolveAt(r: Raster, kernel: seq<seq<int>>, x: int, y: int, ch: int) returns (v: Byte)
    requires r.Valid() && Square(kernel)
    ensures v == ConvPixel(r, kernel)(x, y, ch)
  {
    var kernelSize := |kernel|;
    var offset := kernelSize / 2;
    var sum := 0;
    ghost var k := 0;
    var ky := 0;
    while ky < kernelSize
      invariant 0 <= ky <= kernelSize
      invariant k == ky * kernelSize && k <= kernelSize * kernelSize
      invariant sum == ConvSum(r, kernel, x, y, ch, k)
    {
      var kx := 0;
      while kx < kernelSize
        invariant 0 <= kx <= kernelSize
        invariant k == ky * kernelSize + kx && k <= kernelSize * kernelSize
        invariant sum == ConvSum(r, kernel, x, y, ch, k)
      {
        var px := ClampCoord(x + kx - offset, r.width);
        var py := ClampCoord(y + ky - offset, r.height);
        TermAt(r, kernel, x, y, ch, ky, kx);
        sum := sum + r.At(px, py, ch) * kernel[ky][kx];
        k := k + 1;
        kx := kx + 1;
      }
      IdxStep(kernelSize, 1, 0, ky);
      ky := ky + 1;
    }
    v := ToByte(sum);
  }

  /** `applyConvolution`: clone, then set every sample of the clone to the
      clamped kernel sum over the clamped neighbourhood of the input. */
  method ApplyConvolution(img: Image, kernel: seq<seq<int>>) returns (result: Image)
    requires img.Valid() && Square(kernel)
    ensures fresh(result) && result.Valid() && result.View() == Convolved(img.View(), kernel)
  {
    var src := img.View();
    var w, h, c := src.width, src.height, src.channels;
    result := img.Clone();
    ghost var target := Generate(w, h, c, ConvPixel(src, kernel));
    ghost var base := result.data;
    ghost var k := 0;
    var y := 0;
    while y < h
      invariant 0 <= y <= h
      invariant fresh(result) && result.Valid() && result.width == w && result.height == h && result.channels == c
      invariant k == Idx(w, c, 0, y, 0)
      invariant Progress(result.data, target.samples, base, k)
    {
      var x := 0;
      while x < w
        invariant 0 <= x <= w
        invariant fresh(result) && result.Valid() && result.width == w && result.height == h && result.channels == c
        invariant k == Idx(w, c, x, y, 0)
        invariant Progress(result.data, target.samples, base, k)
      {
        var ch := 0;
        while ch < c
          invariant 0 <= ch <= c
          invariant fresh(result) && result.Valid() && result.width == w && result.height == h && result.channels == c
          invariant k == Idx(w, c, x, y, ch)
          invariant Progress(result.data, target.samples, base, k)
        {
          var v := ConvolveAt(src, kernel, x, y, ch);
          GenerateAt(w, h, c, ConvPixel(src, kernel), x, y, ch);
          ProgressStep(result.data, target.samples, base, k, v);
          result.SetPixel(x, y, ch, v);
          k := k + 1;
          ch := ch + 1;
        }
        IdxStep(w, c, x, y);
        x := x + 1;
      }
      IdxStep(w, c, 0, y);
      y := y + 1;
    }
    IdxStep(w, c, 0, h);
    ProgressDone(result.data, target.samples, base);
  }

  /** `sharpenFilter`. */
  method SharpenFilter(img: Image) returns (result: Image)
    requires img.Valid()
    ensures fresh(result) && result.Valid() && result.View() == Convolved(img.View(), SharpenKernel)
  {
    result := ApplyConvolution(img, SharpenKernel);
  }

  /** `laplacianFilter`. */
  method LaplacianFilter(img: Image) returns (result: Image)
    requires img.Valid()
    ensures fresh(result) && result.Valid() && result.View() == Convolved(img.View(), LaplacianKernel)
  {
    result := ApplyConvolution(img, LaplacianKernel);
  }

  /** Every channel holds one value over the whole image. */
  predicate Flat(r: Raster)
    requires r.Valid()
  {
    forall x, y, ch :: 0 <= x < r.width && 0 <= y < r.height && 0 <= ch < r.channels ==> r.At(x, y, ch) == r.At(0, 0, ch)
  }

  /** On a flat channel the sum is the channel's value times the kernel's
      weight: replicate border means every clamped neighbour is in the
      image. */
  lemma {:induction false} ConvSumFlat(r: Raster, kernel: seq<seq<int>>, x: int, y: int, ch: int, k: nat)
    requires r.Valid() && Flat(r) && r.width > 0 && r.height > 0 && 0 <= ch < r.channels
    requires Square(kernel) && k <= |kernel| * |kernel|
    ensures ConvSum(r, kernel, x, y, ch, k) == r.At(0, 0, ch) * Weight(kernel, k)
  {
    if k > 0 {
      ConvSumFlat(r, kernel, x, y, ch, k - 1);
      TermFlat(r, kernel, x, y, ch, k - 1);
      var v, w, c := r.At(0, 0, ch), Weight(kernel, k - 1), Cell(kernel, k - 1);
      assert Weight(kernel, k) == w + c;
      MulAdd(v, w, c);
    }
  }

  lemma TermFlat(r: Raster, kernel: seq<seq<int>>, x: int, y: int, ch: int, i: nat)
    requires r.Valid() && Flat(r) && r.width > 0 && r.height > 0 && 0 <= ch < r.channels
    requires Square(kernel) && i < |kernel| * |kernel|
    ensures Term(r, kernel, x, y, ch, i) == r.At(0, 0, ch) * Cell(kernel, i)
  {
    var n := |kernel|;
    var px := ClampCoord(x + i % n - n / 2, r.width);
    var py := ClampCoord(y + i / n - n / 2, r.height);
    assert r.At(px, py, ch) == r.At(0, 0, ch);
  }

  lemma SharpenWeight()
    ensures Square(SharpenKernel) && Weight(SharpenKernel, 9) == 1
  {
    var K := SharpenKernel;
    assert Cell(K, 0) == 0 && Cell(K, 1) == -1 && Cell(K, 2) == 0;
    assert Cell(K, 3) == -1 && Cell(K, 4) == 5 && Cell(K, 5) == -1;
    assert Cell(K, 6) == 0 && Cell(K, 7) == -1 && Cell(K, 8) == 0;
  }

  lemma LaplacianWeight()
    ensures Square(LaplacianKernel) && Weight(LaplacianKernel, 9) == 0
  {
    var K := LaplacianKernel;
    assert Cell(K, 0) == -1 && Cell(K, 1) == -1 && Cell(K, 2) == -1;
    assert Cell(K, 3) == -1 && Cell(K, 4) == 8 && Cell(K, 5) == -1;
    assert Cell(K, 6) == -1 && Cell(K, 7) == -1 && Cell(K, 8) == -1;
  }

  /** The sharpen kernel (weight 1) leaves a flat image unchanged. */
  lemma SharpenFlat(r: Raster)
    requires r.Valid() && Flat(r)
    ensures Convolved(r, SharpenKernel) == r
  {
    SharpenWeight();
    forall x, y, ch | 0 <= x < r.width && 0 <= y < r.height && 0 <= ch < r.channels
      ensures Convolved(r, SharpenKernel).At(x, y, ch) == r.At(x, y, ch)
    {
      GenerateAt(r.width, r.height, r.channels, ConvPixel(r, SharpenKernel), x, y, ch);
      ConvSumFlat(r, SharpenKernel, x, y, ch, 9);
    }
    Extensionality(Convolved(r, SharpenKernel), r);
  }

  /** The Laplacian kernel (weight 0) turns a flat image black. */
  lemma LaplacianFlat(r: Raster)
    requires r.Valid() && Flat(r)
    ensures Convolved(r, LaplacianKernel) == Blank(r.width, r.height, r.channels)
  {
    LaplacianWeight();
    var b := Blank(r.width, r.height, r.channels);
    forall x, y, ch | 0 <= x < r.width && 0 <= y < r.height && 0 <= ch < r.channels
      ensures Convolved(r, LaplacianKernel).At(x, y, ch) == b.At(x, y, ch)
    {
      GenerateAt(r.width, r.height, r.channels, ConvPixel(r, LaplacianKernel), x, y, ch);
      ConvSumFlat(r, LaplacianKernel, x, y, ch, 9);
      BlankAt(r.width, r.height, r.channels, x, y, ch);
    }
    Extensionality(Convolved(r, LaplacianKernel), b);
  }
}
