/** Point operations (lab2/src/PointOperations.cpp): per-sample maps written
    by the clone-and-overwrite x/y/channel loop, the 256-entry lookup table
    behind gamma, log and power transforms, the channel-wise bitwise
    combination of two images, and the percentile contrast stretch. */
module PointOperations {
  import opened Pixels
  import opened Images
  import opened Windows
  import opened Distribution

  // ---------------------------------------------------------------------
  // Per-sample maps

  function MapPixel(r: Raster, f: Byte -> Byte): (int, int, int) -> Byte
    requires r.Valid()
  {
    (x, y, ch) => f(r.At(x, y, ch))
  }

  /** The image whose every sample is `f` of the sample at the same place. */
  function Mapped(r: Raster, f: Byte -> Byte): (q: Raster)
    requires r.Valid()
    ensures q.Valid() && SameShape(q, r)
  {
    Generate(r.width, r.height, r.channels, MapPixel(r, f))
  }

  /** A mapped sample depends on nothing but the input sample at the same
      place: two places holding the same value come out equal. */
  lemma MappedAt(r: Raster, f: Byte -> Byte, x: int, y: int, ch: int)
    requires r.Valid() && r.InBounds(x, y) && 0 <= ch < r.channels
    ensures Mapped(r, f).At(x, y, ch) == f(r.At(x, y, ch))
  {
    GenerateAt(r.width, r.height, r.channels, MapPixel(r, f), x, y, ch);
  }

  /** The loop shared by every per-sample operation: clone the image, then
      for every y, x and channel set the clone's sample to `f` of the
      original's. */
  method MapImage(img: Image, f: Byte -> Byte) returns (result: Image)
    requires img.Valid()
    ensures fresh(result) && result.Valid() && result.View() == Mapped(img.View(), f)
  {
    ghost var r := img.View();
    ghost var target := Mapped(r, f).samples;
    var w, h, c := img.width, img.height, img.channels;
    result := img.Clone();
    ghost var k := 0;
    var y := 0;
    while y < h
      invariant 0 <= y <= h
      invariant result.Valid() && result.width == w && result.height == h && result.channels == c
      invariant k == Idx(w, c, 0, y, 0)
      invariant Progress(result.data, target, r.samples, k)
    {
      var x := 0;
      while x < w
        invariant 0 <= x <= w
        invariant result.Valid() && result.width == w && result.height == h && result.channels == c
        invariant k == Idx(w, c, x, y, 0)
        invariant Progress(result.data, target, r.samples, k)
      {
        var ch := 0;
        while ch < c
          invariant 0 <= ch <= c
          invariant result.Valid() && result.width == w && result.height == h && result.channels == c
          invariant k == Idx(w, c, x, y, ch)
          invariant Progress(result.data, target, r.samples, k)
        {
          var v := img.GetPixel(x, y, ch);
          assert v == r.At(x, y, ch);
          GenerateAt(w, h, c, MapPixel(r, f), x, y, ch);
          ProgressStep(result.data, target, r.samples, k, f(v));
          result.SetPixel(x, y, ch, f(v));
          k := k + 1;
          ch := ch + 1;
        }
        IdxStep(w, c, x, y);
        x := x + 1;
      }
      IdxStep(w, c, 0, y);
      y := y + 1;
    }
    IdxStep(w, c, 0, h);
    ProgressDone(result.data, target, r.samples);
  }

  // ---------------------------------------------------------------------
  // Invert and bitwise NOT

  function Complement(v: Byte): Byte
  {
    255 - v
  }

  /** `invert`: every sample `v` becomes `255 - v`. */
  method Invert(img: Image) returns (result: Image)
    requires img.Valid()
    ensures fresh(result) && result.Valid() && result.View() == Mapped(img.View(), Complement)
  {
    result := MapImage(img, Complement);
  }

  /** `bitwiseNOT` is `invert`: on a byte, `~v` is `255 - v`. */
  method BitwiseNot(img: Image) returns (result: Image)
    requires img.Valid()
    ensures fresh(result) && result.Valid() && result.View() == Mapped(img.View(), Complement)
  {
    result := Invert(img);
  }

  /** Inverting twice gives back the image. */
  lemma InvertInvolution(r: Raster)
    requires r.Valid()
    ensures Mapped(Mapped(r, Complement), Complement) == r
  {
    var q := Mapped(r, Complement);
    forall x, y, ch | 0 <= x < r.width && 0 <= y < r.height && 0 <= ch < r.channels
      ensures Mapped(q, Complement).At(x, y, ch) == r.At(x, y, ch)
    {
      MappedAt(r, Complement, x, y, ch);
      MappedAt(q, Complement, x, y, ch);
    }
    Extensionality(Mapped(q, Complement), r);
  }

  // ---------------------------------------------------------------------
  // Clip

  /** `glm::clamp(val, minVal, maxVal)`, i.e. `min(max(val, minVal), maxVal)`. */
  function ClipTo(lo: Byte, hi: Byte): Byte -> Byte
  {
    (v: Byte) => ClipValue(v, lo, hi)
  }

  function ClipValue(v: Byte, lo: Byte, hi: Byte): Byte
  {
    Min(Max(v, lo), hi)
  }

  /** `clipBrightness`. */
  method ClipBrightness(img: Image, minVal: Byte, maxVal: Byte) returns (result: Image)
    requires img.Valid()
    ensures fresh(result) && result.Valid() && result.View() == Mapped(img.View(), ClipTo(minVal, maxVal))
  {
    result := MapImage(img, ClipTo(minVal, maxVal));
  }

  /** With `minVal <= maxVal` every sample lands in [minVal, maxVal] and
      samples already there are kept; with the bounds crossed every sample
      becomes `maxVal`. */
  lemma ClippedAt(r: Raster, lo: Byte, hi: Byte, x: int, y: int, ch: int)
    requires r.Valid() && r.InBounds(x, y) && 0 <= ch < r.channels
    ensures var v, u := r.At(x, y, ch), Mapped(r, ClipTo(lo, hi)).At(x, y, ch);
      && (lo <= hi ==> lo <= u <= hi)
      && (lo <= v <= hi ==> u == v)
      && (lo <= hi && v < lo ==> u == lo)
      && (lo <= hi && v > hi ==> u == hi)
      && (lo > hi ==> u == hi)
  {
    MappedAt(r, ClipTo(lo, hi), x, y, ch);
  }

  // ---------------------------------------------------------------------
  // Quantize

  /** The level count after `levels` is forced into [2, 256]. */
  function LevelCount(levels: int): (n: int)
    ensures 2 <= n <= 256
    ensures 2 <= levels <= 256 ==> n == levels
  {
    if levels <= 1 then 2 else if levels > 256 then 256 else levels
  }

  /** `round(val / step)` with `step = 255 / (n - 1)`, computed exactly. */
  function QuantLevel(v: Byte, n: int): (l: int)
    requires 2 <= n <= 256
    ensures 0 <= l <= n - 1
  {
    var l := RoundDiv(v * (n - 1), 255);
    LevelBound(v, n, l);
    l
  }

  lemma LevelBound(v: Byte, n: int, l: int)
    requires 2 <= n <= 256 && l == RoundDiv(v * (n - 1), 255)
    ensures 0 <= l <= n - 1
  {
    MulMono(v, 255, n - 1);
    SignOf(n - l, 510);
    SignOf(l + 1, 510);
    assert (n - l) * 510 == 510 * n - 510 * l;
    assert (l + 1) * 510 == 510 * l + 510;
  }

  /** `(unsigned char)(level * step)`: the level's value, truncated. */
  function LevelValue(l: int, n: int): (q: Byte)
    requires 2 <= n <= 256 && 0 <= l <= n - 1
  {
    LevelValueBound(l, n);
    l * 255 / (n - 1)
  }

  lemma LevelValueBound(l: int, n: int)
    requires 2 <= n <= 256 && 0 <= l <= n - 1
    ensures 0 <= l * 255 / (n - 1) <= 255
  {
    MulMono(l, n - 1, 255);
    DivMono(l * 255, (n - 1) * 255, n - 1);
    DivModUnique(255, n - 1, 0);
  }

  /** The value `quantize` writes for a sample `v`. */
  function Quantizer(levels: int): Byte -> Byte
  {
    var n := LevelCount(levels);
    (v: Byte) => LevelValue(QuantLevel(v, n), n)
  }

  /** `quantize`. */
  method Quantize(img: Image, levels: int) returns (result: Image)
    requires img.Valid()
    ensures fresh(result) && result.Valid() && result.View() == Mapped(img.View(), Quantizer(levels))
  {
    result := MapImage(img, Quantizer(levels));
  }

  lemma DivMono(a: int, b: int, d: int)
    requires 0 <= a <= b && d > 0
    ensures a / d <= b / d
  {
    assert a == (a / d) * d + a % d;
    assert b == (b / d) * d + b % d;
    MulLess(a / d, b / d + 1, d);
  }

  lemma RoundDivMono(p: int, p': int, q: int)
    requires 0 <= p <= p' && q > 0
    ensures RoundDiv(p, q) <= RoundDiv(p', q)
  {
    DivMono(2 * p + q, 2 * p' + q, 2 * q);
  }

  /** Black and white survive quantisation at every level count, and a
      brighter sample never comes out darker. */
  lemma QuantizerProperties(levels: int, v: Byte, v': Byte)
    ensures Quantizer(levels)(0) == 0
    ensures Quantizer(levels)(255) == 255
    ensures v <= v' ==> Quantizer(levels)(v) <= Quantizer(levels)(v')
  {
    var n := LevelCount(levels);
    DivModUnique(0, 255, 0);
    assert QuantLevel(0, n) == 0;
    DivModUnique(n - 1, 255, 127);
    assert 2 * (255 * (n - 1)) + 255 == (n - 1) * 510 + 255;
    assert QuantLevel(255, n) == n - 1;
    DivModUnique(255, n - 1, 0);
    assert (n - 1) * 255 == 255 * (n - 1);
    if v <= v' {
      MulMono(v, v', n - 1);
      RoundDivMono(v * (n - 1), v' * (n - 1), 255);
      var l, l' := QuantLevel(v, n), QuantLevel(v', n);
      MulMono(l, l', 255);
      DivMono(l * 255, l' * 255, n - 1);
    }
  }

  /** With two levels the image becomes black and white: samples below 128
      go to 0, the rest to 255. */
  lemma TwoLevels(v: Byte)
    ensures Quantizer(2)(v) == if v < 128 then 0 else 255
  {
    var l := RoundDiv(v, 255);
    if v < 128 {
      DivModUnique(0, 510, 2 * v + 255);
      assert l == 0;
    } else {
      DivModUnique(1, 510, 2 * v + 255 - 510);
      assert l == 1;
    }
  }

  /** The row 0, 100, 200, 255 quantised to two levels is 0, 0, 255, 255. */
  lemma QuantizeExample()
    ensures Mapped(Raster(4, 1, 1, [0, 100, 200, 255]), Quantizer(2)) == Raster(4, 1, 1, [0, 0, 255, 255])
  {
    var r := Raster(4, 1, 1, [0, 100, 200, 255]);
    var e := Raster(4, 1, 1, [0, 0, 255, 255]);
    forall x, y, ch | 0 <= x < 4 && 0 <= y < 1 && 0 <= ch < 1
      ensures Mapped(r, Quantizer(2)).At(x, y, ch) == e.At(x, y, ch)
    {
      MappedAt(r, Quantizer(2), x, y, ch);
      TwoLevels(r.At(x, y, ch));
    }
    Extensionality(Mapped(r, Quantizer(2)), e);
  }

  // ---------------------------------------------------------------------
  // Lookup tables: gamma, log and power transforms

  /** Reading a 256-entry table at a sample value. */
  function Lookup(table: seq<Byte>): Byte -> Byte
  {
    (v: Byte) => LookupValue(table, v)
  }

  function LookupValue(table: seq<Byte>, v: Byte): Byte
  {
    if v < |table| then table[v] else 0
  }

  /** `lut[i] = entry(i)` for i = 0..255. */
  method BuildTable(entry: Byte -> Byte) returns (lut: array<Byte>)
    ensures fresh(lut) && lut.Length == 256
    ensures forall i :: 0 <= i < 256 ==> lut[i] == entry(i)
  {
    lut := new Byte[256];
    var i := 0;
    while i < 256
      invariant 0 <= i <= 256
      invariant forall j :: 0 <= j < i ==> lut[j] == entry(j)
    {
      lut[i] := entry(i);
      i := i + 1;
    }
  }

  /** Mapping through a table that holds `entry` is mapping by `entry`. */
  lemma TableApplied(r: Raster, table: seq<Byte>, entry: Byte -> Byte)
    requires r.Valid() && |table| == 256
    requires forall i :: 0 <= i < 256 ==> table[i] == entry(i)
    ensures Mapped(r, Lookup(table)) == Mapped(r, entry)
  {
    forall x, y, ch | 0 <= x < r.width && 0 <= y < r.height && 0 <= ch < r.channels
      ensures Mapped(r, Lookup(table)).At(x, y, ch) == Mapped(r, entry).At(x, y, ch)
    {
      MappedAt(r, Lookup(table), x, y, ch);
      MappedAt(r, entry, x, y, ch);
    }
    Extensionality(Mapped(r, Lookup(table)), Mapped(r, entry));
  }

  /** Build the table from `entry`, then rewrite every sample of a clone
      through it. */
  method ApplyTable(img: Image, entry: Byte -> Byte) returns (result: Image)
    requires img.Valid()
    ensures fresh(result) && result.Valid() && result.View() == Mapped(img.View(), entry)
  {
    var lut := BuildTable(entry);
    var table := lut[..];
    result := MapImage(img, Lookup(table));
    TableApplied(img.View(), table, entry);
  }

  /** `gammaCorrection`; `curve(i)` stands for `applyGamma(i, gamma)`. */
  method GammaCorrection(img: Image, curve: Byte -> Byte) returns (result: Image)
    requires img.Valid()
    ensures fresh(result) && result.Valid() && result.View() == Mapped(img.View(), curve)
  {
    result := ApplyTable(img, curve);
  }

  /** `logarithmicTransform`; `curve(i)` stands for `applyLog(i, 255 / ln 256 * c)`. */
  method LogarithmicTransform(img: Image, curve: Byte -> Byte) returns (result: Image)
    requires img.Valid()
    ensures fresh(result) && result.Valid() && result.View() == Mapped(img.View(), curve)
  {
    result := ApplyTable(img, curve);
  }

  /** `powerTransform`; `curve(i)` stands for the clamped `c * (i / 255)^power * 255`. */
  method PowerTransform(img: Image, curve: Byte -> Byte) returns (result: Image)
    requires img.Valid()
    ensures fresh(result) && result.Valid() && result.View() == Mapped(img.View(), curve)
  {
    result := ApplyTable(img, curve);
  }

  // ---------------------------------------------------------------------
  // Bitwise AND, OR, XOR

  function And(a: Byte, b: Byte): Byte { ((a as bv8) & (b as bv8)) as int }
  function Or(a: Byte, b: Byte): Byte { ((a as bv8) | (b as bv8)) as int }
  function Xor(a: Byte, b: Byte): Byte { ((a as bv8) ^ (b as bv8)) as int }

  /** Sample (x, y, ch) once the channels below `m` are set to `g`. */
  function PrefixValue(r: Raster, m: int, g: (int, int, int) -> Byte, x: int, y: int, ch: int): Byte
    requires r.Valid()
  {
    if ch < m then g(x, y, ch) else r.At(x, y, ch)
  }

  function PrefixPixel(r: Raster, m: int, g: (int, int, int) -> Byte): (int, int, int) -> Byte
    requires r.Valid()
  {
    (x, y, ch) => PrefixValue(r, m, g, x, y, ch)
  }

  /** `r` with the samples of its channels below `m` set to `g` and all
      other samples kept. */
  function Rewritten(r: Raster, m: int, g: (int, int, int) -> Byte): (q: Raster)
    requires r.Valid()
    ensures q.Valid() && SameShape(q, r)
  {
    Generate(r.width, r.height, r.channels, PrefixPixel(r, m, g))
  }

  lemma RewrittenAt(r: Raster, m: int, g: (int, int, int) -> Byte, x: int, y: int, ch: int)
    requires r.Valid() && r.InBounds(x, y) && 0 <= ch < r.channels
    ensures Rewritten(r, m, g).At(x, y, ch) == if ch < m then g(x, y, ch) else r.At(x, y, ch)
  {
    GenerateAt(r.width, r.height, r.channels, PrefixPixel(r, m, g), x, y, ch);
  }

  /** Positions whose target already equals the base need no write. */
  lemma ProgressSkip(d: seq<Byte>, target: seq<Byte>, base: seq<Byte>, k: int, k': int)
    requires Progress(d, target, base, k) && k <= k' <= |d|
    requires forall i :: k <= i < k' ==> target[i] == base[i]
    ensures Progress(d, target, base, k')
  {
  }

  /** In a pixel, the channels from `m` on keep their samples. */
  lemma RewriteTail(r: Raster, m: int, g: (int, int, int) -> Byte, x: int, y: int)
    requires r.Valid() && 0 <= m <= r.channels && r.InBounds(x, y)
    ensures Idx(r.width, r.channels, x, y, r.channels) <= |r.samples|
    ensures var w, c := r.width, r.channels;
      forall i :: Idx(w, c, x, y, m) <= i < Idx(w, c, x, y, c) ==> Rewritten(r, m, g).samples[i] == r.samples[i]
  {
    var w, c := r.width, r.channels;
    IdxNext(w, r.height, c, x, y);
    forall i | Idx(w, c, x, y, m) <= i < Idx(w, c, x, y, c)
      ensures Rewritten(r, m, g).samples[i] == r.samples[i]
    {
      var ch := i - Idx(w, c, x, y, 0);
      assert i == Idx(w, c, x, y, ch);
      GenerateAt(w, r.height, c, PrefixPixel(r, m, g), x, y, ch);
      IdxBound(w, r.height, c, x, y, ch);
    }
  }

  lemma IdxNext(w: nat, h: nat, c: nat, x: nat, y: nat)
    requires x < w && y < h
    ensures Idx(w, c, x, y, c) == Idx(w, c, x + 1, y, 0) <= w * h * c
  {
    IdxBound(w, h, 1, x, y, 0);
    MulMono(y * w + x + 1, w * h, c);
    IdxStep(w, c, x, y);
  }

  /** The y/x/channel loop over a clone that sets, in every pixel, the
      channels below `m` to `g` and leaves the others alone. */
  method RewriteChannels(img: Image, m: int, g: (int, int, int) -> Byte) returns (result: Image)
    requires img.Valid() && 0 <= m <= img.channels
    ensures fresh(result) && result.Valid() && result.View() == Rewritten(img.View(), m, g)
  {
    ghost var r := img.View();
    ghost var target := Rewritten(r, m, g).samples;
    var w, h, c := img.width, img.height, img.channels;
    result := img.Clone();
    ghost var k := 0;
    var y := 0;
    while y < h
      invariant 0 <= y <= h
      invariant result.Valid() && result.width == w && result.height == h && result.channels == c
      invariant k == Idx(w, c, 0, y, 0)
      invariant Progress(result.data, target, r.samples, k)
    {
      var x := 0;
      while x < w
        invariant 0 <= x <= w
        invariant result.Valid() && result.width == w && result.height == h && result.channels == c
        invariant k == Idx(w, c, x, y, 0)
        invariant Progress(result.data, target, r.samples, k)
      {
        var ch := 0;
        while ch < m
          invariant 0 <= ch <= m
          invariant result.Valid() && result.width == w && result.height == h && result.channels == c
          invariant k == Idx(w, c, x, y, ch)
          invariant Progress(result.data, target, r.samples, k)
        {
          GenerateAt(w, h, c, PrefixPixel(r, m, g), x, y, ch);
          ProgressStep(result.data, target, r.samples, k, g(x, y, ch));
          result.SetPixel(x, y, ch, g(x, y, ch));
          k := k + 1;
          ch := ch + 1;
        }
        RewriteTail(r, m, g, x, y);
        ProgressSkip(result.data, target, r.samples, k, Idx(w, c, x, y, c));
        IdxStep(w, c, x, y);
        k := Idx(w, c, x + 1, y, 0);
        x := x + 1;
      }
      IdxStep(w, c, 0, y);
      y := y + 1;
    }
    IdxStep(w, c, 0, h);
    ProgressDone(result.data, target, r.samples);
  }

  /** `op` of the two images' samples at the same place. */
  function PairPixel(a: Raster, b: Raster, op: (Byte, Byte) -> Byte): (int, int, int) -> Byte
    requires a.Valid() && b.Valid()
  {
    (x, y, ch) => op(a.At(x, y, ch), b.At(x, y, ch))
  }

  /** The image a bitwise operation returns: `a` itself when the sizes
      differ, otherwise `a` with its first `min(a.channels, b.channels)`
      channels combined sample by sample with `b`. */
  function Combined(a: Raster, b: Raster, op: (Byte, Byte) -> Byte): (q: Raster)
    requires a.Valid() && b.Valid()
    ensures q.Valid() && SameShape(q, a)
  {
    if a.width != b.width || a.height != b.height then a
    else Rewritten(a, Min(a.channels, b.channels), PairPixel(a, b, op))
  }

  lemma CombinedAt(a: Raster, b: Raster, op: (Byte, Byte) -> Byte, x: int, y: int, ch: int)
    requires a.Valid() && b.Valid() && a.InBounds(x, y) && 0 <= ch < a.channels
    ensures Combined(a, b, op).At(x, y, ch) ==
      if a.width == b.width && a.height == b.height && ch < b.channels then op(a.At(x, y, ch), b.At(x, y, ch))
      else a.At(x, y, ch)
  {
    if a.width == b.width && a.height == b.height {
      RewrittenAt(a, Min(a.channels, b.channels), PairPixel(a, b, op), x, y, ch);
    }
  }

  /** The shared body of `bitwiseAND`, `bitwiseOR` and `bitwiseXOR`: a
      clone when the sizes differ, otherwise the channels both images have
      combined pixel by pixel. */
  method Combine(img1: Image, img2: Image, op: (Byte, Byte) -> Byte) returns (result: Image)
    requires img1.Valid() && img2.Valid()
    ensures fresh(result) && result.Valid() && result.View() == Combined(img1.View(), img2.View(), op)
  {
    if img1.width != img2.width || img1.height != img2.height {
      result := img1.Clone();
      return;
    }
    var m := if img1.channels <= img2.channels then img1.channels else img2.channels;
    result := RewriteChannels(img1, m, PairPixel(img1.View(), img2.View(), op));
  }

  method BitwiseAnd(img1: Image, img2: Image) returns (result: Image)
    requires img1.Valid() && img2.Valid()
    ensures fresh(result) && result.Valid() && result.View() == Combined(img1.View(), img2.View(), And)
  {
    result := Combine(img1, img2, And);
  }

  method BitwiseOr(img1: Image, img2: Image) returns (result: Image)
    requires img1.Valid() && img2.Valid()
    ensures fresh(result) && result.Valid() && result.View() == Combined(img1.View(), img2.View(), Or)
  {
    result := Combine(img1, img2, Or);
  }

  method BitwiseXor(img1: Image, img2: Image) returns (result: Image)
    requires img1.Valid() && img2.Valid()
    ensures fresh(result) && result.Valid() && result.View() == Combined(img1.View(), img2.View(), Xor)
  {
    result := Combine(img1, img2, Xor);
  }

  lemma BitsSelf(v: Byte)
    ensures And(v, v) == v && Or(v, v) == v && Xor(v, v) == 0
  {
  }

  lemma BitsCommute(v: Byte, u: Byte)
    ensures And(v, u) == And(u, v) && Or(v, u) == Or(u, v) && Xor(v, u) == Xor(u, v)
  {
    var a, b := v as bv8, u as bv8;
    assert a & b == b & a;
    assert a | b == b | a;
    assert a ^ b == b ^ a;
  }

  /** An image combined with itself: AND and OR give it back, XOR gives
      black. */
  lemma CombinedSelf(r: Raster)
    requires r.Valid()
    ensures Combined(r, r, And) == r && Combined(r, r, Or) == r
    ensures Combined(r, r, Xor) == Blank(r.width, r.height, r.channels)
  {
    forall x, y, ch | 0 <= x < r.width && 0 <= y < r.height && 0 <= ch < r.channels
      ensures Combined(r, r, And).At(x, y, ch) == r.At(x, y, ch)
      ensures Combined(r, r, Or).At(x, y, ch) == r.At(x, y, ch)
      ensures Combined(r, r, Xor).At(x, y, ch) == Blank(r.width, r.height, r.channels).At(x, y, ch)
    {
      CombinedAt(r, r, And, x, y, ch);
      CombinedAt(r, r, Or, x, y, ch);
      CombinedAt(r, r, Xor, x, y, ch);
      BitsSelf(r.At(x, y, ch));
      BlankAt(r.width, r.height, r.channels, x, y, ch);
    }
    Extensionality(Combined(r, r, And), r);
    Extensionality(Combined(r, r, Or), r);
    Extensionality(Combined(r, r, Xor), Blank(r.width, r.height, r.channels));
  }

  /** AND, OR and XOR of two images of the same shape do not depend on the
      order of the operands. */
  lemma CombinedCommutes(a: Raster, b: Raster)
    requires a.Valid() && b.Valid() && SameShape(a, b)
    ensures Combined(a, b, And) == Combined(b, a, And)
    ensures Combined(a, b, Or) == Combined(b, a, Or)
    ensures Combined(a, b, Xor) == Combined(b, a, Xor)
  {
    forall x, y, ch | 0 <= x < a.width && 0 <= y < a.height && 0 <= ch < a.channels
      ensures Combined(a, b, And).At(x, y, ch) == Combined(b, a, And).At(x, y, ch)
      ensures Combined(a, b, Or).At(x, y, ch) == Combined(b, a, Or).At(x, y, ch)
      ensures Combined(a, b, Xor).At(x, y, ch) == Combined(b, a, Xor).At(x, y, ch)
    {
      CombinedAt(a, b, And, x, y, ch);
      CombinedAt(b, a, And, x, y, ch);
      CombinedAt(a, b, Or, x, y, ch);
      CombinedAt(b, a, Or, x, y, ch);
      CombinedAt(a, b, Xor, x, y, ch);
      CombinedAt(b, a, Xor, x, y, ch);
      BitsCommute(a.At(x, y, ch), b.At(x, y, ch));
    }
    Extensionality(Combined(a, b, And), Combined(b, a, And));
    Extensionality(Combined(a, b, Or), Combined(b, a, Or));
    Extensionality(Combined(a, b, Xor), Combined(b, a, Xor));
  }

  // ---------------------------------------------------------------------
  // Manual linear contrast

  /** The value `linearContrastManual` writes for a sample `v` when
      `minIn < maxIn`. The float `scale` is the exact rational
      `(maxOut - minOut) / (maxIn - minIn)`; the sum is non-negative, so
      truncation is the floor. */
  function StretchValue(v: Byte, minIn: Byte, maxIn: Byte, minOut: Byte, maxOut: Byte): Byte
    requires minIn < maxIn
  {
    if v <= minIn then minOut
    else if v >= maxIn then maxOut
    else ToByte(minOut + (v - minIn) * (maxOut - minOut) / (maxIn - minIn))
  }

  function Stretcher(minIn: Byte, maxIn: Byte, minOut: Byte, maxOut: Byte): Byte -> Byte
    requires minIn < maxIn
  {
    (v: Byte) => StretchValue(v, minIn, maxIn, minOut, maxOut)
  }

  /** The image `linearContrastManual` returns. */
  function ManualContrasted(r: Raster, minIn: Byte, maxIn: Byte, minOut: Byte, maxOut: Byte): Raster
    requires r.Valid()
  {
    if minIn >= maxIn then r else Mapped(r, Stretcher(minIn, maxIn, minOut, maxOut))
  }

  /** `linearContrastManual`: a clone, rewritten only when `minIn < maxIn`. */
  method LinearContrastManual(img: Image, minIn: Byte, maxIn: Byte, minOut: Byte, maxOut: Byte) returns (result: Image)
    requires img.Valid()
    ensures fresh(result) && result.Valid() && result.View() == ManualContrasted(img.View(), minIn, maxIn, minOut, maxOut)
  {
    if minIn >= maxIn {
      result := img.Clone();
      return;
    }
    result := MapImage(img, Stretcher(minIn, maxIn, minOut, maxOut));
  }

  /** The stretch sends [0, minIn] to `minOut` and [maxIn, 255] to `maxOut`;
      with `minOut <= maxOut` it is monotone with every value in
      [minOut, maxOut]. */
  lemma StretcherProperties(minIn: Byte, maxIn: Byte, minOut: Byte, maxOut: Byte, v: Byte, v': Byte)
    requires minIn < maxIn
    ensures v <= minIn ==> Stretcher(minIn, maxIn, minOut, maxOut)(v) == minOut
    ensures v >= maxIn ==> Stretcher(minIn, maxIn, minOut, maxOut)(v) == maxOut
    ensures minOut <= maxOut ==> minOut <= Stretcher(minIn, maxIn, minOut, maxOut)(v) <= maxOut
    ensures minOut <= maxOut && v <= v' ==>
      Stretcher(minIn, maxIn, minOut, maxOut)(v) <= Stretcher(minIn, maxIn, minOut, maxOut)(v')
  {
    var d, s := maxIn - minIn, maxOut - minOut;
    if minOut <= maxOut {
      if minIn < v < maxIn {
        InnerStretch(v, minIn, d, s);
      }
      if minIn < v' < maxIn {
        InnerStretch(v', minIn, d, s);
      }
      if minIn < v <= v' < maxIn {
        MulMono(v - minIn, v' - minIn, s);
        DivMono((v - minIn) * s, (v' - minIn) * s, d);
      }
    }
  }

  /** Strictly between the input bounds the stretched offset stays within
      [0, maxOut - minOut]. */
  lemma InnerStretch(v: Byte, minIn: Byte, d: int, s: int)
    requires d > 0 && s >= 0 && minIn < v < minIn + d
    ensures 0 <= (v - minIn) * s / d <= s
  {
    MulMono(v - minIn, d, s);
    DivMono(0, (v - minIn) * s, d);
    DivMono((v - minIn) * s, d * s, d);
    DivModUnique(s, d, 0);
    assert d * s == s * d;
  }

  // ---------------------------------------------------------------------
  // Percentile linear contrast

  /** The intensity `linearContrast` collects for pixel (x, y): the
      luminance when the image has three or more channels, otherwise
      channel 0. */
  function IntensityAt(r: Raster, luma: Luma): (int, int) -> Byte
    requires r.Valid()
  {
    (x, y) => Intensity(r, luma, x, y)
  }

  function Intensity(r: Raster, luma: Luma, x: int, y: int): Byte
    requires r.Valid()
  {
    if r.channels >= 3 then luma(r.At(x, y, 0), r.At(x, y, 1), r.At(x, y, 2)) else r.At(x, y, 0)
  }

  /** `static_cast<int>`: truncation toward zero. */
  function Truncate(z: real): int
  {
    if z >= 0.0 then z.Floor else -((-z).Floor)
  }

  /** `static_cast<int>(size * percentile / 100)`, the float product taken
      as the exact rational. */
  function PercentileIndex(n: nat, p: real): int
  {
    Truncate(n as real * p / 100.0)
  }

  /** The percentile read as written: `intensities[index]` with the index
      unchecked. `None` stands for a read outside the vector. */
  function PercentileAsWritten(sorted: seq<Byte>, p: real): (v: Option<Byte>)
    ensures v.Some? <==> 0 <= PercentileIndex(|sorted|, p) < |sorted|
  {
    var i := PercentileIndex(|sorted|, p);
    if 0 <= i < |sorted| then Some(sorted[i]) else None
  }

  /** The 100th percentile indexes one past the end of the vector. */
  lemma HundredthPercentileOutOfBounds(sorted: seq<Byte>)
    ensures PercentileIndex(|sorted|, 100.0) == |sorted|
    ensures PercentileAsWritten(sorted, 100.0) == None
  {
    assert |sorted| as real * 100.0 / 100.0 == |sorted| as real;
  }

  /** The percentile with its index clamped to the last element: the read
      the source evidently intends for a percentile in [0, 100]. */
  function Percentile(sorted: seq<Byte>, p: real): Byte
    requires |sorted| > 0
  {
    sorted[Clamp(PercentileIndex(|sorted|, p), 0, |sorted| - 1)]
  }

  /** Wherever the unchecked read stays inside the vector, the clamped one
      reads the same element. */
  lemma PercentileAgrees(sorted: seq<Byte>, p: real)
    requires |sorted| > 0 && PercentileAsWritten(sorted, p).Some?
    ensures PercentileAsWritten(sorted, p) == Some(Percentile(sorted, p))
  {
  }

  /** For percentiles in [0, 100] the truncated index grows with the
      percentile and stays within [0, n]. */
  lemma PercentileIndexOrder(n: nat, p: real, p': real)
    requires 0.0 <= p <= p'
    ensures 0 <= PercentileIndex(n, p) <= PercentileIndex(n, p')
    ensures p' <= 100.0 ==> PercentileIndex(n, p') <= n
  {
    var z, z' := n as real * p / 100.0, n as real * p' / 100.0;
    assert 0.0 <= z <= z' by {
      assert n as real * p <= n as real * p';
    }
    assert z.Floor <= z'.Floor;
    if p' <= 100.0 {
      assert n as real * p' <= n as real * 100.0;
      assert z' <= n as real;
    }
  }

  /** On a sorted vector, percentile 0 is the smallest element, percentile
      100 the largest, and a higher percentile never reads a smaller one. */
  lemma PercentileOrder(sorted: seq<Byte>, p: real, p': real)
    requires |sorted| > 0 && Sorted(sorted)
    ensures Percentile(sorted, 0.0) == sorted[0]
    ensures Percentile(sorted, 100.0) == sorted[|sorted| - 1]
    ensures 0.0 <= p <= p' ==> Percentile(sorted, p) <= Percentile(sorted, p')
  {
    var n := |sorted|;
    assert n as real * 0.0 / 100.0 == 0.0;
    HundredthPercentileOutOfBounds(sorted);
    if 0.0 <= p <= p' {
      PercentileIndexOrder(n, p, p');
    }
  }

  /** The vector `linearContrast` collects: one intensity per pixel, in y/x
      order, by `push_back`. */
  method CollectIntensities(img: Image, luma: Luma) returns (s: seq<Byte>)
    requires img.Valid()
    ensures s == Scan(img.width, img.height, IntensityAt(img.View(), luma))
  {
    ghost var g := IntensityAt(img.View(), luma);
    ghost var all := Scan(img.width, img.height, g);
    s := [];
    var y := 0;
    while y < img.height
      invariant 0 <= y <= img.height
      invariant |s| == y * img.width <= |all|
      invariant s == all[..|s|]
    {
      var x := 0;
      while x < img.width
        invariant 0 <= x <= img.width
        invariant |s| == y * img.width + x <= |all|
        invariant s == all[..|s|]
      {
        var v := if img.channels >= 3 then luma(img.GetPixel(x, y, 0), img.GetPixel(x, y, 1), img.GetPixel(x, y, 2))
                 else img.GetPixel(x, y, 0);
        ScanAt(img.width, img.height, g, x, y);
        assert v == g(x, y);
        assert all[..|s| + 1] == all[..|s|] + [v];
        s := s + [v];
        x := x + 1;
      }
      IdxStep(img.width, 1, 0, y);
      y := y + 1;
    }
    assert all[..|s|] == all;
  }

  /** The image `linearContrast` returns: the manual stretch from the
      `minPercentile`-th to the `maxPercentile`-th intensity onto [0, 255].
      An empty image, whose vector has no element to read, is returned
      unchanged. */
  function PercentileContrasted(r: Raster, minPercentile: real, maxPercentile: real, luma: Luma): Raster
    requires r.Valid()
  {
    var sorted := SortSeq(Scan(r.width, r.height, IntensityAt(r, luma)));
    if |sorted| == 0 then r
    else ManualContrasted(r, Percentile(sorted, minPercentile), Percentile(sorted, maxPercentile), 0, 255)
  }

  /** The collected intensities after `std::sort`. */
  method SortedIntensities(img: Image, luma: Luma) returns (sorted: seq<Byte>)
    requires img.Valid()
    ensures sorted == SortSeq(Scan(img.width, img.height, IntensityAt(img.View(), luma)))
  {
    var intensities := CollectIntensities(img, luma);
    var buffer := new Byte[|intensities|](i requires 0 <= i < |intensities| => intensities[i]);
    assert buffer[..] == intensities;
    SortInPlace(buffer);
    SortSeqSorted(intensities);
    SortedUnique(buffer[..], SortSeq(intensities));
    sorted := buffer[..];
  }

  /** `linearContrast`: collect, sort, read the two percentiles (clamped to
      the vector) and stretch. */
  method LinearContrast(img: Image, minPercentile: real, maxPercentile: real, luma: Luma) returns (result: Image)
    requires img.Valid()
    ensures fresh(result) && result.Valid() && result.View() == PercentileContrasted(img.View(), minPercentile, maxPercentile, luma)
  {
    var sorted := SortedIntensities(img, luma);
    var n := |sorted|;
    if n == 0 {
      result := img.Clone();
      return;
    }
    var minVal := sorted[Clamp(PercentileIndex(n, minPercentile), 0, n - 1)];
    var maxVal := sorted[Clamp(PercentileIndex(n, maxPercentile), 0, n - 1)];
    assert PercentileContrasted(img.View(), minPercentile, maxPercentile, luma) == ManualContrasted(img.View(), minVal, maxVal, 0, 255);
    result := LinearContrastManual(img, minVal, maxVal, 0, 255);
  }

  /** The two percentile bounds of a non-empty sample are samples, are
      ordered, and the stretch between distinct bounds spans [0, 255]. */
  lemma PercentileBoundsOf(s: seq<Byte>, minPercentile: real, maxPercentile: real)
    requires |s| > 0 && 0.0 <= minPercentile <= maxPercentile
    ensures var sorted := SortSeq(s);
      && |sorted| > 0
      && Percentile(sorted, minPercentile) in s && Percentile(sorted, maxPercentile) in s
      && Percentile(sorted, minPercentile) <= Percentile(sorted, maxPercentile)
      && (Percentile(sorted, minPercentile) < Percentile(sorted, maxPercentile) ==>
            Stretcher(Percentile(sorted, minPercentile), Percentile(sorted, maxPercentile), 0, 255)(Percentile(sorted, minPercentile)) == 0 &&
            Stretcher(Percentile(sorted, minPercentile), Percentile(sorted, maxPercentile), 0, 255)(Percentile(sorted, maxPercentile)) == 255)
  {
    var sorted := SortSeq(s);
    SortSeqSorted(s);
    PercentileOrder(sorted, minPercentile, maxPercentile);
    var lo, hi := Percentile(sorted, minPercentile), Percentile(sorted, maxPercentile);
    assert lo in multiset(sorted) && hi in multiset(sorted);
    assert lo in multiset(s) && hi in multiset(s);
    if lo < hi {
      StretcherProperties(lo, hi, 0, 255, lo, hi);
      StretcherProperties(lo, hi, 0, 255, hi, lo);
    }
  }

  /** With percentiles 0 <= minPercentile <= maxPercentile the read bounds
      are ordered intensities of the image, and when they differ the lower
      one is sent to 0 and the upper one to 255. */
  lemma PercentileContrastBounds(r: Raster, minPercentile: real, maxPercentile: real, luma: Luma)
    requires r.Valid() && r.width * r.height > 0 && 0.0 <= minPercentile <= maxPercentile
    ensures var s := Scan(r.width, r.height, IntensityAt(r, luma));
      var sorted := SortSeq(s);
      && |sorted| > 0
      && Percentile(sorted, minPercentile) in s && Percentile(sorted, maxPercentile) in s
      && Percentile(sorted, minPercentile) <= Percentile(sorted, maxPercentile)
      && (Percentile(sorted, minPercentile) < Percentile(sorted, maxPercentile) ==>
            Stretcher(Percentile(sorted, minPercentile), Percentile(sorted, maxPercentile), 0, 255)(Percentile(sorted, minPercentile)) == 0 &&
            Stretcher(Percentile(sorted, minPercentile), Percentile(sorted, maxPercentile), 0, 255)(Percentile(sorted, maxPercentile)) == 255)
  {
    PercentileBoundsOf(Scan(r.width, r.height, IntensityAt(r, luma)), minPercentile, maxPercentile);
  }
}
