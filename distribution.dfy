/** Intensity histograms, their prefix-sum CDF, the first non-zero CDF entry
    and the histogram-equalisation lookup table. The same code appears in
    lab2/src/ImageProcessor.cpp, lab2/src/Histogram.cpp and
    lab2/src/ThresholdProcessing.cpp; it is defined once here. */
module Distribution {
  import opened Pixels
  import opened Images

  /** The number of occurrences of `v` in `s`. */
  function Count(s: seq<Byte>, v: int): nat
  {
    if |s| == 0 then 0 else Count(s[..|s| - 1], v) + (if s[|s| - 1] == v then 1 else 0)
  }

  /** `Count` is the multiplicity of `v` in the multiset of `s`. */
  lemma {:induction false} CountMultiplicity(s: seq<Byte>, v: Byte)
    ensures Count(s, v) == multiset(s)[v]
  {
    if |s| > 0 {
      var p := s[..|s| - 1];
      assert s == p + [s[|s| - 1]];
      CountMultiplicity(p, v);
    }
  }

  /** The 256-bin histogram of a sample sequence. */
  function Hist(s: seq<Byte>): (h: seq<nat>)
    ensures |h| == 256
  {
    seq(256, v => Count(s, v))
  }

  function Sum(a: seq<int>): int
  {
    if |a| == 0 then 0 else Sum(a[..|a| - 1]) + a[|a| - 1]
  }

  lemma SumPrefixStep(a: seq<int>, i: nat)
    requires i < |a|
    ensures Sum(a[..i + 1]) == Sum(a[..i]) + a[i]
  {
    assert a[..i + 1][..i] == a[..i];
  }

  lemma {:induction false} SumIncrement(a: seq<int>, v: nat)
    requires v < |a|
    ensures Sum(a[v := a[v] + 1]) == Sum(a) + 1
  {
    var b := a[v := a[v] + 1];
    var n := |a| - 1;
    if v == n {
      assert b[..n] == a[..n];
    } else {
      assert b[..n] == a[..n][v := a[v] + 1];
      SumIncrement(a[..n], v);
    }
  }

  /** Appending one sample increments exactly its own bin. */
  lemma HistSnoc(s: seq<Byte>, v: Byte)
    ensures Hist(s + [v]) == Hist(s)[v := Hist(s)[v] + 1]
  {
    assert (s + [v])[..|s|] == s;
  }

  /** The bins of a histogram add up to the number of samples. */
  lemma {:induction false} HistSum(s: seq<Byte>)
    ensures Sum(Hist(s)) == |s|
  {
    if |s| == 0 {
      assert Hist(s) == seq(256, _ => 0);
      ZeroSum(256);
    } else {
      var p := s[..|s| - 1];
      assert s == p + [s[|s| - 1]];
      HistSnoc(p, s[|s| - 1]);
      HistSum(p);
      SumIncrement(Hist(p), s[|s| - 1]);
    }
  }

  lemma {:induction false} ZeroSum(n: nat)
    ensures Sum(seq(n, _ => 0)) == 0
  {
    if n > 0 {
      assert seq(n, _ => 0)[..n - 1] == seq(n - 1, _ => 0);
      ZeroSum(n - 1);
    }
  }

  /** The per-pixel values `g(x, y)` of a `w x h` image in the order of the
      y/x scan loops. */
  function Scan(w: nat, h: nat, g: (int, int) -> Byte): (s: seq<Byte>)
    ensures |s| == w * h
  {
    seq(w * h, i => if w == 0 then 0 else g(i % w, i / w))
  }

  lemma ScanAt(w: nat, h: nat, g: (int, int) -> Byte, x: nat, y: nat)
    requires x < w && y < h
    ensures y * w + x < w * h && Scan(w, h, g)[y * w + x] == g(x, y)
  {
    IdxBound(w, h, 1, x, y, 0);
    DivModUnique(y, w, x);
  }

  /** `getPixel(x, y, ch)` as a function of the pixel. */
  function ChannelReader(r: Raster, ch: int): (int, int) -> Byte
    requires r.Valid()
  {
    (x, y) => r.At(x, y, ch)
  }

  /** Row `y` of a `w`-wide scan ends at `(y + 1) * w`, within the scan. */
  lemma RowEnd(w: nat, h: nat, y: nat)
    requires y < h
    ensures y * w + w == (y + 1) * w <= w * h
  {
    RowStep(y, w);
    MulMono(y + 1, h, w);
  }

  /** The y/x scan of one channel, read by `getPixel`. */
  function Column(r: Raster, ch: int): (s: seq<Byte>)
    requires r.Valid()
    ensures |s| == r.width * r.height
  {
    Scan(r.width, r.height, ChannelReader(r, ch))
  }

  /** Every pixel's sample of channel `ch` occurs in the channel's scan. */
  lemma ColumnHas(r: Raster, ch: int, x: int, y: int)
    requires r.Valid() && r.InBounds(x, y)
    ensures r.At(x, y, ch) in Column(r, ch)
  {
    ScanAt(r.width, r.height, ChannelReader(r, ch), x, y);
  }

  /** The y/x histogram loop shared by every histogram of the program
      (`histogram[value]++` for the value `g(x, y)` of each pixel). */
  method Tally(w: nat, h: nat, g: (int, int) -> Byte) returns (hist: seq<int>)
    ensures hist == Hist(Scan(w, h, g))
  {
    hist := seq(256, _ => 0);
    ghost var s := Scan(w, h, g);
    ghost var k := 0;
    assert hist == Hist(s[..0]);
    var y := 0;
    while y < h
      invariant 0 <= y <= h
      invariant k == y * w && k <= |s|
      invariant hist == Hist(s[..k])
    {
      var x := 0;
      while x < w
        invariant 0 <= x <= w
        invariant k == y * w + x && k <= |s|
        invariant hist == Hist(s[..k])
      {
        var v := g(x, y);
        ScanAt(w, h, g, x, y);
        assert s[..k + 1] == s[..k] + [v];
        HistSnoc(s[..k], v);
        hist := hist[v := hist[v] + 1];
        k := k + 1;
        x := x + 1;
      }
      IdxStep(w, 1, 0, y);
      y := y + 1;
    }
    assert s[..k] == s;
  }

  /** Every histogram the program computes holds one count per pixel. */
  lemma ScanHistTotal(w: nat, h: nat, g: (int, int) -> Byte)
    ensures Sum(Hist(Scan(w, h, g))) == w * h
  {
    HistSum(Scan(w, h, g));
  }

  /** The cumulative distribution: entry `i` is the number of samples at or
      below `i`. */
  function Cdf(hist: seq<int>): (cdf: seq<int>)
    ensures |cdf| == |hist|
  {
    seq(|hist|, i requires 0 <= i < |hist| => Sum(hist[..i + 1]))
  }

  /** The prefix-sum loop: `cdf[0] = hist[0]`, then
      `cdf[i] = cdf[i-1] + hist[i]`. */
  method CumulativeSum(hist: seq<int>) returns (cdf: seq<int>)
    requires |hist| == 256
    ensures cdf == Cdf(hist)
  {
    cdf := seq(256, _ => 0);
    assert hist[..1] == [hist[0]];
    assert Sum(hist[..1]) == Sum(hist[..0]) + hist[0];
    cdf := cdf[0 := hist[0]];
    var i := 1;
    while i < 256
      invariant 1 <= i <= 256 && |cdf| == 256
      invariant forall j :: 0 <= j < i ==> cdf[j] == Sum(hist[..j + 1])
    {
      SumPrefixStep(hist, i);
      cdf := cdf[i := cdf[i - 1] + hist[i]];
      i := i + 1;
    }
  }

  /** The last CDF entry of a histogram is the number of samples. */
  lemma CdfLast(s: seq<Byte>)
    ensures Cdf(Hist(s))[255] == |s|
  {
    assert Hist(s)[..256] == Hist(s);
    HistSum(s);
  }

  /** A CDF of non-negative counts never decreases. */
  lemma {:induction false} CdfMonotone(hist: seq<int>, i: nat, j: nat)
    requires forall k :: 0 <= k < |hist| ==> hist[k] >= 0
    requires i <= j < |hist|
    ensures Cdf(hist)[i] <= Cdf(hist)[j]
  {
    if i < j {
      CdfMonotone(hist, i, j - 1);
      SumPrefixStep(hist, j);
    }
  }

  /** The CDF of a sample sequence counts the samples at or below each
      intensity. */
  lemma {:induction false} CdfCounts(s: seq<Byte>, i: nat)
    requires i < 256
    ensures Cdf(Hist(s))[i] == |Below(s, i)|
  {
    if |s| > 0 {
      var p := s[..|s| - 1];
      var v := s[|s| - 1];
      assert s == p + [v];
      CdfCounts(p, i);
      HistSnoc(p, v);
      PrefixIncrement(Hist(p), v, i);
      assert Below(s, i) == Below(p, i) + (if v <= i then [v] else []);
    } else {
      assert Hist(s)[..i + 1] == seq(i + 1, _ => 0);
      ZeroSum(i + 1);
    }
  }

  /** The samples at or below `i`, in order. */
  function Below(s: seq<Byte>, i: int): seq<Byte>
  {
    if |s| == 0 then []
    else Below(s[..|s| - 1], i) + (if s[|s| - 1] <= i then [s[|s| - 1]] else [])
  }

  lemma {:induction false} PrefixIncrement(a: seq<int>, v: nat, i: nat)
    requires v < |a| && i < |a|
    ensures Sum(a[v := a[v] + 1][..i + 1]) == Sum(a[..i + 1]) + (if v <= i then 1 else 0)
  {
    var b := a[v := a[v] + 1];
    if v <= i {
      assert b[..i + 1] == a[..i + 1][v := a[v] + 1];
      SumIncrement(a[..i + 1], v);
    } else {
      assert b[..i + 1] == a[..i + 1];
    }
  }

  /** The first-positive scan: `cdfMin` starts at `cdf[0]` and becomes the
      first positive entry, if any. */
  function FirstPositive(cdf: seq<int>, i: nat): int
    requires 0 < |cdf| && i <= |cdf|
    decreases |cdf| - i
  {
    if i == |cdf| then cdf[0]
    else if cdf[i] > 0 then cdf[i]
    else FirstPositive(cdf, i + 1)
  }

  function CdfMin(cdf: seq<int>): int
    requires 0 < |cdf|
  {
    FirstPositive(cdf, 0)
  }

  /** The early-`break` scan for `cdfMin`. */
  method FindCdfMin(cdf: seq<int>) returns (cdfMin: int)
    requires |cdf| == 256
    ensures cdfMin == CdfMin(cdf)
  {
    cdfMin := cdf[0];
    var i := 0;
    while i < 256
      invariant 0 <= i <= 256
      invariant cdfMin == cdf[0]
      invariant FirstPositive(cdf, 0) == FirstPositive(cdf, i)
    {
      if cdf[i] > 0 {
        cdfMin := cdf[i];
        break;
      }
      i := i + 1;
    }
  }

  /** The smallest intensity present in a non-empty sample sequence. */
  function Lowest(s: seq<Byte>): (lo: Byte)
    requires |s| > 0
    ensures lo in s && forall v :: v in s ==> lo <= v
  {
    if |s| == 1 then s[0]
    else
      var m := Lowest(s[1..]);
      assert forall v :: v in s ==> v == s[0] || v in s[1..];
      if s[0] <= m then s[0] else m
  }

  /** The largest intensity present in a non-empty sample sequence. */
  function Highest(s: seq<Byte>): (hi: Byte)
    requires |s| > 0
    ensures hi in s && forall v :: v in s ==> v <= hi
  {
    if |s| == 1 then s[0]
    else
      var m := Highest(s[1..]);
      assert forall v :: v in s ==> v == s[0] || v in s[1..];
      if s[0] >= m then s[0] else m
  }

  /** In a non-empty image `cdfMin` is the number of samples equal to the
      smallest present intensity, and the CDF is zero below it. */
  lemma CdfMinAtLowest(s: seq<Byte>)
    requires |s| > 0
    ensures forall j :: 0 <= j < Lowest(s) ==> Cdf(Hist(s))[j] == 0
    ensures Cdf(Hist(s))[Lowest(s)] > 0
    ensures CdfMin(Cdf(Hist(s))) == Cdf(Hist(s))[Lowest(s)]
  {
    var lo := Lowest(s);
    var cdf := Cdf(Hist(s));
    forall j | 0 <= j < lo
      ensures cdf[j] == 0
    {
      CdfCounts(s, j);
      BelowEmpty(s, j);
    }
    CdfCounts(s, lo);
    BelowLowest(s, lo);
    FirstPositiveSkip(cdf, lo);
  }

  lemma {:induction false} BelowEmpty(s: seq<Byte>, j: int)
    requires forall v :: v in s ==> j < v
    ensures Below(s, j) == []
  {
    if |s| > 0 {
      var p := s[..|s| - 1];
      assert s == p + [s[|s| - 1]];
      assert forall v :: v in p ==> v in s;
      assert s[|s| - 1] in s;
      BelowEmpty(p, j);
    }
  }

  lemma {:induction false} BelowLowest(s: seq<Byte>, lo: Byte)
    requires lo in s
    ensures |Below(s, lo)| > 0
  {
    var p := s[..|s| - 1];
    if s[|s| - 1] != lo {
      assert s == p + [s[|s| - 1]];
      assert lo in p;
      BelowLowest(p, lo);
    }
  }

  lemma FirstPositiveSkip(cdf: seq<int>, lo: nat)
    requires lo < |cdf| && cdf[lo] > 0
    requires forall j :: 0 <= j < lo ==> cdf[j] == 0
    ensures FirstPositive(cdf, 0) == cdf[lo]
  {
    var i := lo;
    while i > 0
      invariant 0 <= i <= lo
      invariant FirstPositive(cdf, i) == cdf[lo]
    {
      i := i - 1;
    }
  }

  /** At and above the largest present intensity the CDF is the number of
      samples. */
  lemma CdfAtHighest(s: seq<Byte>, i: nat)
    requires |s| > 0 && Highest(s) <= i < 256
    ensures Cdf(Hist(s))[i] == |s|
  {
    CdfCounts(s, i);
    BelowAll(s, i);
  }

  lemma {:induction false} BelowAll(s: seq<Byte>, i: int)
    requires forall v :: v in s ==> v <= i
    ensures Below(s, i) == s
  {
    if |s| > 0 {
      var p := s[..|s| - 1];
      assert s == p + [s[|s| - 1]];
      assert forall v :: v in p ==> v in s;
      assert s[|s| - 1] in s;
      BelowAll(p, i);
    }
  }

  /** One entry of the equalisation table as the source computes it:
      `round((cdf[i] - cdfMin) / float(total - cdfMin) * 255)` converted to a
      byte. `None` where the float expression or its conversion is undefined:
      a zero divisor, or a negative value (an intensity below the smallest
      present one). */
  function EntryAsWritten(c: int, cdfMin: int, total: int): Option<int>
  {
    if total - cdfMin <= 0 || c < cdfMin then None
    else Some(RoundDiv((c - cdfMin) * 255, total - cdfMin))
  }

  /** A one-intensity image (every sample 128, say) has `total == cdfMin`:
      the entry of its only intensity divides by zero. */
  lemma SingleIntensityDividesByZero(n: nat)
    requires n > 0
    ensures EntryAsWritten(Cdf(Hist(seq(n, _ => 128)))[128], CdfMin(Cdf(Hist(seq(n, _ => 128)))), n).None?
  {
    var s := seq(n, _ => 128);
    assert s[0] == 128;
    assert Lowest(s) == 128 by {
      assert forall v :: v in s ==> v == 128;
    }
    CdfMinAtLowest(s);
    CdfAtHighest(s, 128);
  }

  /** One entry of the equalisation table: the rounded rescaling of
      `cdf[i] - cdfMin` from `[0, total - cdfMin]` to `[0, 255]`. A
      one-intensity image (`total == cdfMin`) keeps its intensity; entries
      below the smallest present intensity are never read and hold 0. */
  function Entry(i: Byte, c: int, cdfMin: int, total: int): Byte
  {
    if total - cdfMin <= 0 then i
    else if c < cdfMin then 0
    else ToByte(RoundDiv((c - cdfMin) * 255, total - cdfMin))
  }

  /** Where the source's entry is defined, `Entry` is that value. */
  lemma EntryAgrees(i: Byte, c: int, cdfMin: int, total: int)
    requires cdfMin <= c <= total && total > cdfMin
    ensures EntryAsWritten(c, cdfMin, total) == Some(Entry(i, c, cdfMin, total) as int)
  {
    RoundDivBelow((c - cdfMin) * 255, total - cdfMin, 255);
  }

  lemma RoundDivBelow(p: int, q: int, k: int)
    requires q > 0 && 0 <= p <= k * q
    ensures 0 <= RoundDiv(p, q) <= k
  {
    var r := RoundDiv(p, q);
    assert r * (2 * q) < (k + 1) * (2 * q);
    MulLess(r, k + 1, 2 * q);
    assert 0 * (2 * q) < (r + 1) * (2 * q);
    MulLess(0, r + 1, 2 * q);
  }

  lemma RoundDivMonotone(p: int, p': int, q: int)
    requires q > 0 && 0 <= p <= p'
    ensures RoundDiv(p, q) <= RoundDiv(p', q)
  {
    var r, r' := RoundDiv(p, q), RoundDiv(p', q);
    assert 2 * q * r <= 2 * p + q && 2 * p' + q < 2 * q * (r' + 1);
    assert r * (2 * q) == 2 * q * r && (r' + 1) * (2 * q) == 2 * q * (r' + 1);
    MulLess(r, r' + 1, 2 * q);
  }

  lemma RoundDivExact(k: nat, q: int)
    requires q > 0
    ensures RoundDiv(k * q, q) == k
  {
    var r := RoundDiv(k * q, q);
    assert 2 * q * r <= 2 * k * q + q < 2 * q * (r + 1);
    assert r * (2 * q) < (k + 1) * (2 * q);
    MulLess(r, k + 1, 2 * q);
    assert k * (2 * q) < (r + 1) * (2 * q);
    MulLess(k, r + 1, 2 * q);
  }

  /** The table that equalises a histogram of `total` samples. */
  function EqualizeTable(hist: seq<int>, total: int): (lut: seq<Byte>)
    requires |hist| == 256
    ensures |lut| == 256
  {
    var cdf := Cdf(hist);
    seq(256, i requires 0 <= i < 256 => Entry(i, cdf[i], CdfMin(cdf), total))
  }

  /** The table-filling loop over `i` in 0..255. */
  method BuildTable(cdf: seq<int>, cdfMin: int, total: int) returns (lut: seq<Byte>)
    requires |cdf| == 256
    ensures |lut| == 256 && forall i :: 0 <= i < 256 ==> lut[i] == Entry(i, cdf[i], cdfMin, total)
  {
    lut := seq(256, _ => 0);
    var i := 0;
    while i < 256
      invariant 0 <= i <= 256 && |lut| == 256
      invariant forall j :: 0 <= j < i ==> lut[j] == Entry(j, cdf[j], cdfMin, total)
    {
      lut := lut[i := Entry(i, cdf[i], cdfMin, total)];
      i := i + 1;
    }
  }

  /** Histogram, CDF, `cdfMin` and table, as each equalisation computes them
      for the samples `s` of one channel. */
  method EqualizationTable(hist: seq<int>, total: int) returns (lut: seq<Byte>)
    requires |hist| == 256
    ensures lut == EqualizeTable(hist, total)
  {
    var cdf := CumulativeSum(hist);
    var cdfMin := FindCdfMin(cdf);
    lut := BuildTable(cdf, cdfMin, total);
  }

  /** Over the intensities present in `s` the table is non-decreasing. */
  lemma EqualizeMonotone(s: seq<Byte>, a: Byte, b: Byte)
    requires a in s && b in s && a <= b
    ensures EqualizeTable(Hist(s), |s|)[a] <= EqualizeTable(Hist(s), |s|)[b]
  {
    var hist := Hist(s);
    var cdf := Cdf(hist);
    CdfMinAtLowest(s);
    CdfMonotone(hist, Lowest(s), a);
    CdfMonotone(hist, a, b);
    CdfMonotone(hist, b, 255);
    CdfLast(s);
    EntryMonotone(a, b, cdf[a], cdf[b], CdfMin(cdf), |s|);
  }

  lemma EntryMonotone(a: Byte, b: Byte, ca: int, cb: int, m: int, total: int)
    requires a <= b && m <= ca <= cb <= total
    ensures Entry(a, ca, m, total) <= Entry(b, cb, m, total)
  {
    if total - m > 0 {
      RoundDivMonotone((ca - m) * 255, (cb - m) * 255, total - m);
      RoundDivBelow((cb - m) * 255, total - m, 255);
      RoundDivBelow((ca - m) * 255, total - m, 255);
    }
  }

  /** With at least two intensities present, `total > cdfMin`. */
  lemma EqualizeDivisorPositive(s: seq<Byte>)
    requires |s| > 0 && Lowest(s) < Highest(s)
    ensures CdfMin(Cdf(Hist(s))) < |s|
  {
    CdfMinAtLowest(s);
    CdfCounts(s, Lowest(s));
    BelowMissing(s, Lowest(s), Highest(s));
  }

  /** Entry `i` of the table is `Entry` of the cumulative count at `i`. */
  lemma TableAt(hist: seq<int>, total: int, i: Byte)
    requires |hist| == 256
    ensures EqualizeTable(hist, total)[i] == Entry(i, Cdf(hist)[i], CdfMin(Cdf(hist)), total)
  {
  }

  /** A cumulative count equal to `cdfMin` maps to 0, one equal to the
      total maps to 255. */
  lemma EntryEnds(i: Byte, m: int, total: int)
    requires total > m
    ensures Entry(i, m, m, total) == 0
    ensures Entry(i, total, m, total) == 255
  {
    var q := total - m;
    RoundDivExact(0, q);
    assert (m - m) * 255 == 0 * q;
    RoundDivExact(255, q);
    assert (total - m) * 255 == 255 * q;
  }

  /** The smallest present intensity is mapped to 0. */
  lemma EqualizeLowest(s: seq<Byte>)
    requires |s| > 0 && Lowest(s) < Highest(s)
    ensures EqualizeTable(Hist(s), |s|)[Lowest(s)] == 0
  {
    CdfMinAtLowest(s);
    EqualizeDivisorPositive(s);
    TableAt(Hist(s), |s|, Lowest(s));
    EntryEnds(Lowest(s), CdfMin(Cdf(Hist(s))), |s|);
  }

  /** The largest present intensity is mapped to 255. */
  lemma EqualizeHighest(s: seq<Byte>)
    requires |s| > 0 && Lowest(s) < Highest(s)
    ensures EqualizeTable(Hist(s), |s|)[Highest(s)] == 255
  {
    EqualizeDivisorPositive(s);
    CdfAtHighest(s, Highest(s));
    TableAt(Hist(s), |s|, Highest(s));
    EntryEnds(Highest(s), CdfMin(Cdf(Hist(s))), |s|);
  }

  /** A one-intensity image keeps its intensity. */
  lemma EqualizeSingleIntensity(s: seq<Byte>, a: Byte)
    requires |s| > 0 && Lowest(s) == Highest(s)
    ensures EqualizeTable(Hist(s), |s|)[a] == a
  {
    CdfMinAtLowest(s);
    CdfAtHighest(s, Highest(s));
  }

  /** A sample above `i` is missing from the samples at or below `i`. */
  lemma {:induction false} BelowMissing(s: seq<Byte>, i: int, v: Byte)
    requires v in s && i < v
    ensures |Below(s, i)| < |s|
  {
    var p := s[..|s| - 1];
    assert s == p + [s[|s| - 1]];
    BelowShorter(p, i);
    if s[|s| - 1] != v {
      assert v in p;
      BelowMissing(p, i, v);
    }
  }

  lemma {:induction false} BelowShorter(s: seq<Byte>, i: int)
    ensures |Below(s, i)| <= |s|
  {
    if |s| > 0 {
      BelowShorter(s[..|s| - 1], i);
    }
  }

  /** Table application, reading channel `ch` of `src`. */
  function Remapped(src: Raster, ch: int, lut: seq<Byte>): (int, int) -> Byte
    requires src.Valid() && |lut| == 256
  {
    (x, y) => lut[src.At(x, y, ch)]
  }
}
