/** The pixel buffer (`Image`, lab2/src/Image.cpp): width, height, channel
    count and a `width * height * channels` byte vector, updated in place by
    `setPixel` and `copyFrom`. */
module Images {
  import opened Pixels

  class Image {
    var width: nat
    var height: nat
    var channels: nat
    var data: seq<Byte>

    /** The vector always holds exactly `width * height * channels` samples. */
    ghost predicate Valid()
      reads this
    {
      |data| == width * height * channels
    }

    /** The buffer as a value. */
    function View(): Raster
      reads this
    {
      Raster(width, height, channels, data)
    }

    /** `Image()`: an empty image, 0 x 0 with no channels. */
    constructor Empty()
      ensures Valid() && View() == Raster(0, 0, 0, [])
      ensures !IsValid()
    {
      width, height, channels, data := 0, 0, 0, [];
    }

    /** `Image(w, h, c)`: a zero-filled buffer of `w * h * c` samples. */
    constructor (w: nat, h: nat, c: nat)
      ensures Valid() && View() == Blank(w, h, c)
      ensures IsValid() <==> w > 0 && h > 0 && c > 0
    {
      width, height, channels := w, h, c;
      data := seq(w * h * c, _ => 0);
      if w > 0 && h > 0 && c > 0 {
        IdxBound(w, h, c, 0, 0, 0);
      } else if w * h * c > 0 {
        ProductPositive(w, h, c);
      }
    }

    /** `isValid`: a non-empty buffer with positive width and height. */
    predicate IsValid()
      reads this
    {
      |data| > 0 && width > 0 && height > 0
    }

    /** `isValidCoord`. */
    predicate IsValidCoord(x: int, y: int)
      reads this
    {
      0 <= x < width && 0 <= y < height
    }

    /** `getPixel`: bounds-checked read, 0 outside the image. */
    function GetPixel(x: int, y: int, ch: int): (v: Byte)
      reads this
      requires Valid()
      ensures !IsValidCoord(x, y) || ch < 0 || ch >= channels ==> v == 0
      ensures IsValidCoord(x, y) && 0 <= ch < channels ==>
        Idx(width, channels, x, y, ch) < |data| && v == data[Idx(width, channels, x, y, ch)]
    {
      if !IsValidCoord(x, y) || ch < 0 || ch >= channels then 0
      else
        IdxBound(width, height, channels, x, y, ch);
        data[Idx(width, channels, x, y, ch)]
    }

    /** `setPixel`: bounds-checked write; outside the image it does nothing,
        inside it replaces exactly the sample at `(y * width + x) * channels + ch`. */
    method SetPixel(x: int, y: int, ch: int, v: Byte)
      requires Valid()
      modifies this
      ensures Valid() && width == old(width) && height == old(height) && channels == old(channels)
      ensures View() == old(View()).Put(x, y, ch, v)
      ensures !old(IsValidCoord(x, y)) || ch < 0 || ch >= channels ==> data == old(data)
    {
      if !IsValidCoord(x, y) || ch < 0 || ch >= channels {
        return;
      }
      IdxBound(width, height, channels, x, y, ch);
      data := data[Idx(width, channels, x, y, ch) := v];
    }

    /** `clone`: a new image with the same dimensions and samples. Being a
        fresh object, later writes to it leave this image untouched. */
    method Clone() returns (r: Image)
      requires Valid()
      ensures fresh(r) && r.Valid() && r.View() == View()
    {
      r := new Image(width, height, channels);
      r.data := data;
    }

    /** `copyFrom`: all four fields become those of `other`. */
    method CopyFrom(other: Image)
      requires other.Valid()
      modifies this
      ensures Valid() && View() == old(other.View())
    {
      width := other.width;
      height := other.height;
      channels := other.channels;
      data := other.data;
    }

    /** `toGrayscale`: a clone when the image already has one channel,
        otherwise a new one-channel image whose pixel (x, y) is the luminance
        of the `getPixel` reads of channels 0, 1 and 2, written by the shared
        x/y write loop. */
    method ToGrayscale(luma: Luma) returns (gray: Image)
      requires Valid()
      ensures fresh(gray) && gray.Valid() && gray.View() == Grayscale(View(), luma)
    {
      if channels == 1 {
        gray := Clone();
        return;
      }
      gray := Render(width, height, 1, GrayAt(View(), luma));
    }
  }

  /** `isValid` holds exactly when every dimension is positive, that is,
      when the origin is a valid coordinate of an image with channels. */
  lemma IsValidIffPositive(img: Image)
    requires img.Valid()
    ensures img.IsValid() <==> img.width > 0 && img.height > 0 && img.channels > 0
    ensures img.IsValid() <==> img.IsValidCoord(0, 0) && img.channels > 0
  {
    if img.width > 0 && img.height > 0 && img.channels > 0 {
      IdxBound(img.width, img.height, img.channels, 0, 0, 0);
    } else if |img.data| > 0 {
      ProductPositive(img.width, img.height, img.channels);
    }
  }

  /** A valid coordinate of an image with channels addresses real samples:
      the image is valid, and every channel of (x, y) reads back the sample
      stored at its index in the buffer. */
  lemma ValidCoordAddressesSamples(img: Image, x: int, y: int)
    requires img.Valid() && img.IsValidCoord(x, y) && img.channels > 0
    ensures img.IsValid()
    ensures forall ch :: 0 <= ch < img.channels ==>
      Idx(img.width, img.channels, x, y, ch) < |img.data| &&
      img.GetPixel(x, y, ch) == img.data[Idx(img.width, img.channels, x, y, ch)]
  {
    IsValidIffPositive(img);
    forall ch | 0 <= ch < img.channels
      ensures Idx(img.width, img.channels, x, y, ch) < |img.data|
    {
      IdxBound(img.width, img.height, img.channels, x, y, ch);
    }
  }

  /** The luminance of pixel (x, y): channel 0 stands in for a missing
      green or blue channel. */
  function GrayAt(img: Raster, luma: Luma): (int, int, int) -> Byte
    requires img.Valid()
  {
    (x, y, ch) =>
      var r := img.At(x, y, 0);
      luma(r, if img.channels > 1 then img.At(x, y, 1) else r, if img.channels > 2 then img.At(x, y, 2) else r)
  }

  /** The value `toGrayscale` returns. */
  function Grayscale(img: Raster, luma: Luma): (g: Raster)
    requires img.Valid()
    ensures g.Valid() && g.width == img.width && g.height == img.height && g.channels == 1
    ensures img.channels == 1 ==> g == img
  {
    if img.channels == 1 then img
    else Generate(img.width, img.height, 1, GrayAt(img, luma))
  }

  /** In a multi-channel image the gray pixel is the luminance of channels
      0..2 (channel 0 repeated when the image has only two channels). */
  lemma GrayscaleAt(img: Raster, luma: Luma, x: int, y: int)
    requires img.Valid() && img.channels != 1 && img.InBounds(x, y)
    ensures Grayscale(img, luma).At(x, y, 0) ==
      luma(img.At(x, y, 0), if img.channels > 1 then img.At(x, y, 1) else img.At(x, y, 0),
           if img.channels > 2 then img.At(x, y, 2) else img.At(x, y, 0))
  {
    GenerateAt(img.width, img.height, 1, GrayAt(img, luma), x, y, 0);
  }

  /** The x/y/channel write loop shared by every per-sample operation: a new
      `w x h x c` image (zero-filled by the constructor) whose sample
      (x, y, ch) is set to `f(x, y, ch)` by `setPixel`, in storage order. */
  method Render(w: nat, h: nat, c: nat, f: (int, int, int) -> Byte) returns (img: Image)
    ensures fresh(img) && img.Valid() && img.View() == Generate(w, h, c, f)
  {
    img := new Image(w, h, c);
    ghost var target := Generate(w, h, c, f);
    ghost var base := img.data;
    ghost var k := 0;
    var y := 0;
    while y < h
      invariant 0 <= y <= h
      invariant img.Valid() && img.width == w && img.height == h && img.channels == c
      invariant k == Idx(w, c, 0, y, 0)
      invariant Progress(img.data, target.samples, base, k)
    {
      var x := 0;
      while x < w
        invariant 0 <= x <= w
        invariant img.Valid() && img.width == w && img.height == h && img.channels == c
        invariant k == Idx(w, c, x, y, 0)
        invariant Progress(img.data, target.samples, base, k)
      {
        var ch := 0;
        while ch < c
          invariant 0 <= ch <= c
          invariant img.Valid() && img.width == w && img.height == h && img.channels == c
          invariant k == Idx(w, c, x, y, ch)
          invariant Progress(img.data, target.samples, base, k)
        {
          GenerateAt(w, h, c, f, x, y, ch);
          ProgressStep(img.data, target.samples, base, k, f(x, y, ch));
          img.SetPixel(x, y, ch, f(x, y, ch));
          k := k + 1;
          ch := ch + 1;
        }
        IdxStep(w, c, x, y);
        x := x + 1;
      }
      IdxStep(w, c, 0, y);
      y := y + 1;
    }
    IdxStep(w, c, 0, h);
    ProgressDone(img.data, target.samples, base);
  }

  /** A new image reads back 0 at every sample. */
  lemma BlankAt(w: nat, h: nat, c: nat, x: int, y: int, ch: int)
    ensures |Blank(w, h, c).samples| == w * h * c
    ensures Blank(w, h, c).At(x, y, ch) == 0
  {
    var r := Blank(w, h, c);
    if r.InBounds(x, y) && 0 <= ch < c {
      IdxBound(w, h, c, x, y, ch);
    }
  }

  /** The raster whose channel `ch` is replaced by `f`; every other channel
      is that of `r`. */
  function WithChannel(r: Raster, ch: int, f: (int, int) -> Byte): (q: Raster)
    requires r.Valid()
    ensures q.Valid() && SameShape(q, r)
  {
    Generate(r.width, r.height, r.channels, ChannelPixel(r, ch, f))
  }

  function ChannelPixel(r: Raster, ch: int, f: (int, int) -> Byte): (int, int, int) -> Byte
    requires r.Valid()
  {
    (x, y, k) => (if k == ch then f(x, y) else r.At(x, y, k)) as Byte
  }

  /** The y/x loop that rewrites one channel of an existing image in place,
      `img.setPixel(x, y, ch, f(x, y))` for every pixel; a channel outside
      the image changes nothing. */
  method WriteChannel(img: Image, ch: int, f: (int, int) -> Byte)
    requires img.Valid()
    modifies img
    ensures img.Valid() && img.View() == WithChannel(old(img.View()), ch, f)
  {
    ghost var r := img.View();
    var y := 0;
    while y < img.height
      invariant 0 <= y <= img.height
      invariant img.Valid() && SameShape(img.View(), r)
      invariant forall x', y', k :: 0 <= x' < r.width && 0 <= y' < r.height && 0 <= k < r.channels ==>
        img.View().At(x', y', k) == if k == ch && y' < y then f(x', y') else r.At(x', y', k)
    {
      var x := 0;
      while x < img.width
        invariant 0 <= x <= img.width
        invariant img.Valid() && SameShape(img.View(), r)
        invariant forall x', y', k :: 0 <= x' < r.width && 0 <= y' < r.height && 0 <= k < r.channels ==>
          img.View().At(x', y', k) == if k == ch && (y' < y || (y' == y && x' < x)) then f(x', y') else r.At(x', y', k)
      {
        ghost var before := img.View();
        img.SetPixel(x, y, ch, f(x, y));
        forall x', y', k | 0 <= x' < r.width && 0 <= y' < r.height && 0 <= k < r.channels
          ensures img.View().At(x', y', k) == if k == ch && (y' < y || (y' == y && x' < x + 1)) then f(x', y') else r.At(x', y', k)
        {
          PutAt(before, x, y, ch, f(x, y), x', y', k);
        }
        x := x + 1;
      }
      y := y + 1;
    }
    forall x', y', k | 0 <= x' < r.width && 0 <= y' < r.height && 0 <= k < r.channels
      ensures img.View().At(x', y', k) == WithChannel(r, ch, f).At(x', y', k)
    {
      GenerateAt(r.width, r.height, r.channels, ChannelPixel(r, ch, f), x', y', k);
    }
    Extensionality(img.View(), WithChannel(r, ch, f));
  }

  /** The raster whose channels below `n` are the planes `planes(k)` and
      whose other channels are those of `r`: the state after the first `n`
      rounds of a per-channel loop of `WriteChannel`s. */
  function ChannelsUpTo(r: Raster, n: int, planes: int -> ((int, int) -> Byte)): (q: Raster)
    requires r.Valid()
    ensures q.Valid() && SameShape(q, r)
  {
    Generate(r.width, r.height, r.channels, PlanesPixel(r, n, planes))
  }

  function PlanesPixel(r: Raster, n: int, planes: int -> ((int, int) -> Byte)): (int, int, int) -> Byte
    requires r.Valid()
  {
    (x, y, k) => (if k < n then planes(k)(x, y) else r.At(x, y, k)) as Byte
  }

  /** `ChannelsUpTo` reads back its planes below `n` and `r` elsewhere. */
  lemma ChannelsUpToAt(r: Raster, n: int, planes: int -> ((int, int) -> Byte), x: int, y: int, k: int)
    requires r.Valid() && r.InBounds(x, y) && 0 <= k < r.channels
    ensures ChannelsUpTo(r, n, planes).At(x, y, k) == if k < n then planes(k)(x, y) else r.At(x, y, k)
  {
    GenerateAt(r.width, r.height, r.channels, PlanesPixel(r, n, planes), x, y, k);
  }

  /** With no plane written the raster is `r` itself. */
  lemma ChannelsUpToNone(r: Raster, planes: int -> ((int, int) -> Byte))
    requires r.Valid()
    ensures ChannelsUpTo(r, 0, planes) == r
  {
    forall x, y, k | 0 <= x < r.width && 0 <= y < r.height && 0 <= k < r.channels
      ensures ChannelsUpTo(r, 0, planes).At(x, y, k) == r.At(x, y, k)
    {
      ChannelsUpToAt(r, 0, planes, x, y, k);
    }
    Extensionality(ChannelsUpTo(r, 0, planes), r);
  }

  /** One more round of the per-channel loop: writing plane `n` into channel
      `n` of the state after `n` rounds gives the state after `n + 1`. */
  lemma ChannelsUpToStep(r: Raster, n: int, planes: int -> ((int, int) -> Byte))
    requires r.Valid() && n >= 0
    ensures WithChannel(ChannelsUpTo(r, n, planes), n, planes(n)) == ChannelsUpTo(r, n + 1, planes)
  {
    var q := ChannelsUpTo(r, n, planes);
    var a := WithChannel(q, n, planes(n));
    var b := ChannelsUpTo(r, n + 1, planes);
    forall x, y, k | 0 <= x < r.width && 0 <= y < r.height && 0 <= k < r.channels
      ensures a.At(x, y, k) == b.At(x, y, k)
    {
      WithChannelAt(q, n, planes(n), x, y, k);
      ChannelsUpToAt(r, n, planes, x, y, k);
      ChannelsUpToAt(r, n + 1, planes, x, y, k);
    }
    Extensionality(a, b);
  }

  /** Channels at or above the channel count are never written. */
  lemma ChannelsUpToAll(r: Raster, n: int, planes: int -> ((int, int) -> Byte))
    requires r.Valid() && n >= r.channels
    ensures ChannelsUpTo(r, n, planes) == ChannelsUpTo(r, r.channels, planes)
  {
    forall x, y, k | 0 <= x < r.width && 0 <= y < r.height && 0 <= k < r.channels
      ensures ChannelsUpTo(r, n, planes).At(x, y, k) == ChannelsUpTo(r, r.channels, planes).At(x, y, k)
    {
      ChannelsUpToAt(r, n, planes, x, y, k);
      ChannelsUpToAt(r, r.channels, planes, x, y, k);
    }
    Extensionality(ChannelsUpTo(r, n, planes), ChannelsUpTo(r, r.channels, planes));
  }

  /** `WithChannel` reads back `f` in channel `ch` and `r` elsewhere. */
  lemma WithChannelAt(r: Raster, ch: int, f: (int, int) -> Byte, x: int, y: int, k: int)
    requires r.Valid() && r.InBounds(x, y) && 0 <= k < r.channels
    ensures WithChannel(r, ch, f).At(x, y, k) == if k == ch then f(x, y) else r.At(x, y, k)
  {
    GenerateAt(r.width, r.height, r.channels, ChannelPixel(r, ch, f), x, y, k);
  }

  /** Writing back the values a channel already holds changes nothing. */
  lemma WithChannelSame(r: Raster, ch: int, f: (int, int) -> Byte)
    requires r.Valid()
    requires forall x, y :: 0 <= x < r.width && 0 <= y < r.height ==> f(x, y) == r.At(x, y, ch)
    ensures WithChannel(r, ch, f) == r
  {
    forall x, y, k | 0 <= x < r.width && 0 <= y < r.height && 0 <= k < r.channels
      ensures WithChannel(r, ch, f).At(x, y, k) == r.At(x, y, k)
    {
      WithChannelAt(r, ch, f, x, y, k);
    }
    Extensionality(WithChannel(r, ch, f), r);
  }
}
