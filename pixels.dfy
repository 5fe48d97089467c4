/** Sample values, the row-major channel-interleaved layout of a pixel buffer,
    and the value-level view of a buffer (`Raster`) that the algorithms are
    specified against. */
module Pixels {

  /** One 8-bit sample (`uint8_t` / `unsigned char`). */
  type Byte = b: int | 0 <= b < 256

  /** The float luminance `0.299R + 0.587G + 0.114B`, scaled to 0..255 and
      truncated. Its floating-point evaluation is not modelled: every
      operation that reduces a pixel to one intensity takes it as a parameter. */
  type Luma = (Byte, Byte, Byte) -> Byte

  datatype Option<T> = None | Some(value: T)

  function Min(a: int, b: int): int { if a <= b then a else b }
  function Max(a: int, b: int): int { if a >= b then a else b }

  /** `glm::clamp(v, lo, hi)`, which is `min(max(v, lo), hi)`. */
  function Clamp(v: int, lo: int, hi: int): (r: int)
    ensures lo <= hi ==> lo <= r <= hi
    ensures lo <= v <= hi ==> r == v
  {
    Min(Max(v, lo), hi)
  }

  /** `static_cast<uint8_t>` of a value already clamped to [0,255]. */
  function ToByte(v: int): Byte
  {
    Clamp(v, 0, 255)
  }

  /** `std::round(p / q)` for `q > 0`: the nearest integer, halves rounded
      away from zero. */
  function RoundDiv(p: int, q: int): (r: int)
    requires q > 0
    ensures p >= 0 ==> 2 * q * r <= 2 * p + q < 2 * q * (r + 1)
    ensures p < 0 ==> 2 * q * -r <= 2 * -p + q < 2 * q * (-r + 1)
  {
    var a := if p >= 0 then p else -p;
    var n, d := 2 * a + q, 2 * q;
    assert n == d * (n / d) + n % d;
    if p >= 0 then n / d else -(n / d)
  }

  /** Replicate-border sampling: `std::max(0, std::min(n - 1, v))`, written
      out case by case (`ClampCoordIsMaxMin`). */
  function ClampCoord(v: int, n: nat): (r: int)
    ensures n > 0 ==> 0 <= r < n
    ensures 0 <= v < n ==> r == v
  {
    if v <= 0 || n == 0 then 0 else if v >= n - 1 then n - 1 else v
  }

  lemma ClampCoordIsMaxMin(v: int, n: nat)
    ensures ClampCoord(v, n) == Max(0, Min(n - 1, v))
  {
  }

  /** Position of sample (x, y, ch) in a buffer of row width `w` and `c`
      channels: `(y * width + x) * channels + channel`. */
  function Idx(w: nat, c: nat, x: nat, y: nat, ch: nat): nat
  {
    (y * w + x) * c + ch
  }

  lemma IdxBound(w: nat, h: nat, c: nat, x: nat, y: nat, ch: nat)
    requires x < w && y < h && ch < c
    ensures Idx(w, c, x, y, ch) < w * h * c
  {
    var p := y * w + x;
    assert p + 1 <= w * h by {
      MulMono(y + 1, h, w);
      assert (y + 1) * w == y * w + w;
    }
    MulMono(p + 1, w * h, c);
    assert (p + 1) * c == p * c + c;
  }

  /** The next channel, the next pixel of a row and the next row are the
      next positions in the buffer: the scan order of the nested y/x/c loops
      is the storage order. */
  lemma IdxStep(w: nat, c: nat, x: nat, y: nat)
    ensures Idx(w, c, x + 1, y, 0) == Idx(w, c, x, y, c)
    ensures Idx(w, c, 0, y + 1, 0) == Idx(w, c, w, y, 0)
    ensures Idx(w, c, 0, y, 0) == y * w * c
  {
    assert (y * w + x + 1) * c == (y * w + x) * c + c;
    assert ((y + 1) * w) * c == (y * w + w) * c;
    assert (y * w) * c == y * w * c;
  }

  lemma DivModUnique(q: int, d: int, r: int)
    requires d > 0 && 0 <= r < d
    ensures (q * d + r) / d == q && (q * d + r) % d == r
  {
    var n := q * d + r;
    var k := n / d - q;
    assert n == (n / d) * d + n % d;
    assert k * d == r - n % d by {
      assert (n / d) * d == (k + q) * d == k * d + q * d;
    }
  }

  lemma MulAdd(v: int, w: int, c: int)
    ensures v * (w + c) == v * w + v * c
  {
  }

  lemma RowStep(a: int, n: int)
    ensures (a + 1) * n == a * n + n
  {
  }

  lemma SignOf(a: int, n: int)
    requires n > 0
    ensures a <= 0 ==> a * n <= 0
    ensures a < 0 ==> a * n < 0
  {
  }

  lemma MulMono(a: nat, b: nat, c: nat)
    requires a <= b
    ensures a * c <= b * c
  {
  }

  /** Coordinates of an in-range sample are recovered from its position. */
  lemma IdxRecover(w: nat, c: nat, x: nat, y: nat, ch: nat)
    requires x < w && ch < c
    ensures Idx(w, c, x, y, ch) % c == ch
    ensures Idx(w, c, x, y, ch) / c % w == x
    ensures Idx(w, c, x, y, ch) / c / w == y
  {
    DivModUnique(y * w + x, c, ch);
    DivModUnique(y, w, x);
  }

  lemma ProductPositive(a: nat, b: nat, c: nat)
    requires a * b * c > 0
    ensures a > 0 && b > 0 && c > 0
  {
    MulLess(0, a * b, c);
    MulLess(0, a, b);
  }

  /** Cancelling a positive factor keeps a strict order. */
  lemma MulLess(a: int, b: int, c: int)
    requires c > 0 && a * c < b * c
    ensures a < b
  {
  }

  lemma QuotientBound(i: nat, n: nat, d: nat)
    requires d > 0 && i < n * d
    ensures i / d < n
  {
    var p := i / d;
    assert i == p * d + i % d;
    MulLess(p, n, d);
  }

  /** Every position of a buffer is the position of some in-range sample. */
  lemma IdxCover(w: nat, h: nat, c: nat, i: nat) returns (x: nat, y: nat, ch: nat)
    requires i < w * h * c
    ensures x < w && y < h && ch < c
    ensures Idx(w, c, x, y, ch) == i
  {
    ProductPositive(w, h, c);
    var p := i / c;
    QuotientBound(i, w * h, c);
    assert p < h * w;
    QuotientBound(p, h, w);
    ch := i % c;
    x := p % w;
    y := p / w;
    assert i == p * c + ch;
    assert p == y * w + x;
  }

  /** The buffer of a `width x height x channels` image, as a value. */
  datatype Raster = Raster(width: nat, height: nat, channels: nat, samples: seq<Byte>)
  {
    /** The layout invariant: exactly `width * height * channels` samples. */
    ghost predicate Valid()
    {
      |samples| == width * height * channels
    }

    /** `isValidCoord`: the pixel (x, y) lies inside the image. */
    predicate InBounds(x: int, y: int)
    {
      0 <= x < width && 0 <= y < height
    }

    /** `getPixel`: the sample at (x, y, ch), or 0 anywhere outside the image. */
    function At(x: int, y: int, ch: int): Byte
      requires Valid()
    {
      if InBounds(x, y) && 0 <= ch < channels then
        IdxBound(width, height, channels, x, y, ch);
        samples[Idx(width, channels, x, y, ch)]
      else 0
    }

    /** `setPixel`: the buffer after writing `v` at (x, y, ch); a write
        outside the image changes nothing. */
    function Put(x: int, y: int, ch: int, v: Byte): (r: Raster)
      requires Valid()
      ensures r.Valid() && SameShape(r, this)
    {
      if InBounds(x, y) && 0 <= ch < channels then
        IdxBound(width, height, channels, x, y, ch);
        this.(samples := samples[Idx(width, channels, x, y, ch) := v])
      else this
    }
  }

  predicate SameShape(a: Raster, b: Raster)
  {
    a.width == b.width && a.height == b.height && a.channels == b.channels
  }

  /** The zero-filled buffer that `Image(w, h, c)` allocates. */
  function Blank(w: nat, h: nat, c: nat): (r: Raster)
    ensures r.Valid() && r.width == w && r.height == h && r.channels == c
  {
    Raster(w, h, c, seq(w * h * c, _ => 0))
  }

  /** The buffer whose sample at every in-range (x, y, ch) is `f(x, y, ch)`. */
  function Generate(w: nat, h: nat, c: nat, f: (int, int, int) -> Byte): (r: Raster)
    ensures r.Valid() && r.width == w && r.height == h && r.channels == c
  {
    Raster(w, h, c, seq(w * h * c, i => if c == 0 || w == 0 then 0 else f(i / c % w, i / c / w, i % c)))
  }

  lemma GenerateSample(w: nat, h: nat, c: nat, f: (int, int, int) -> Byte, i: nat)
    requires i < w * h * c
    ensures Generate(w, h, c, f).samples[i] == f(i / c % w, i / c / w, i % c)
  {
    ProductPositive(w, h, c);
  }

  lemma GenerateAt(w: nat, h: nat, c: nat, f: (int, int, int) -> Byte, x: int, y: int, ch: int)
    requires 0 <= x < w && 0 <= y < h && 0 <= ch < c
    ensures Idx(w, c, x, y, ch) < w * h * c
    ensures Generate(w, h, c, f).samples[Idx(w, c, x, y, ch)] == f(x, y, ch)
    ensures Generate(w, h, c, f).At(x, y, ch) == f(x, y, ch)
  {
    var i := Idx(w, c, x, y, ch);
    IdxBound(w, h, c, x, y, ch);
    IdxRecover(w, c, x, y, ch);
    GenerateSample(w, h, c, f, i);
    var r := Generate(w, h, c, f);
    assert r.samples[i] == f(x, y, ch);
    assert r.At(x, y, ch) == r.samples[i];
  }

  /** Two buffers of the same shape that agree at every in-range sample are
      equal. */
  lemma Extensionality(a: Raster, b: Raster)
    requires a.Valid() && b.Valid() && SameShape(a, b)
    requires forall x, y, ch :: 0 <= x < a.width && 0 <= y < a.height && 0 <= ch < a.channels ==> a.At(x, y, ch) == b.At(x, y, ch)
    ensures a == b
  {
    forall i | 0 <= i < |a.samples|
      ensures a.samples[i] == b.samples[i]
    {
      var x, y, ch := IdxCover(a.width, a.height, a.channels, i);
      assert a.At(x, y, ch) == b.At(x, y, ch);
    }
  }

  /** Writing at (x, y, ch) changes the sample read back there and no other
      sample. */
  lemma PutAt(r: Raster, x: int, y: int, ch: int, v: Byte, x': int, y': int, ch': int)
    requires r.Valid()
    ensures r.Put(x, y, ch, v).At(x', y', ch') ==
      if r.InBounds(x, y) && 0 <= ch < r.channels && (x', y', ch') == (x, y, ch) then v
      else r.At(x', y', ch')
  {
    if r.InBounds(x, y) && 0 <= ch < r.channels && r.InBounds(x', y') && 0 <= ch' < r.channels {
      var w, c := r.width, r.channels;
      IdxBound(w, r.height, c, x, y, ch);
      IdxBound(w, r.height, c, x', y', ch');
      if Idx(w, c, x, y, ch) == Idx(w, c, x', y', ch') {
        IdxRecover(w, c, x, y, ch);
        IdxRecover(w, c, x', y', ch');
      }
    }
  }

  /** Loop bookkeeping for a scan that rewrites a buffer in storage order:
      positions below `k` already hold `target`, the rest still hold `base`. */
  ghost predicate Progress(d: seq<Byte>, target: seq<Byte>, base: seq<Byte>, k: int)
  {
    && |d| == |target| == |base|
    && 0 <= k <= |d|
    && (forall i :: 0 <= i < k ==> d[i] == target[i])
    && (forall i :: k <= i < |d| ==> d[i] == base[i])
  }

  lemma ProgressStep(d: seq<Byte>, target: seq<Byte>, base: seq<Byte>, k: int, v: Byte)
    requires Progress(d, target, base, k) && k < |d| && target[k] == v
    ensures Progress(d[k := v], target, base, k + 1)
  {
  }

  lemma ProgressDone(d: seq<Byte>, target: seq<Byte>, base: seq<Byte>)
    requires Progress(d, target, base, |d|)
    ensures d == target
  {
  }
}
