/** Neighbourhoods with replicate border, the running minimum and maximum of
    the rank filters, and the sorted order behind `getMedian`
    (lab2/src/ImageProcessor.cpp). */
module Windows {
  import opened Pixels

  /** `minVal = std::min(minVal, v)` over `s`, starting from 255. */
  function MinOf(s: seq<Byte>): Byte
  {
    if |s| == 0 then 255
    else
      var m := MinOf(s[..|s| - 1]);
      if s[|s| - 1] < m then s[|s| - 1] else m
  }

  /** `maxVal = std::max(maxVal, v)` over `s`, starting from 0. */
  function MaxOf(s: seq<Byte>): Byte
  {
    if |s| == 0 then 0
    else
      var m := MaxOf(s[..|s| - 1]);
      if s[|s| - 1] > m then s[|s| - 1] else m
  }

  /** The running minimum is a lower bound of `s` and, for a non-empty `s`,
      one of its elements. */
  lemma {:induction false} MinOfBounds(s: seq<Byte>)
    ensures forall v :: v in s ==> MinOf(s) <= v
    ensures |s| > 0 ==> MinOf(s) in s
  {
    if |s| > 0 {
      var p := s[..|s| - 1];
      assert s == p + [s[|s| - 1]];
      MinOfBounds(p);
    }
  }

  /** The running maximum is an upper bound of `s` and, for a non-empty `s`,
      one of its elements. */
  lemma {:induction false} MaxOfBounds(s: seq<Byte>)
    ensures forall v :: v in s ==> v <= MaxOf(s)
    ensures |s| > 0 ==> MaxOf(s) in s
  {
    if |s| > 0 {
      var p := s[..|s| - 1];
      assert s == p + [s[|s| - 1]];
      MaxOfBounds(p);
    }
  }

  /** One more sample updates the running minimum as the loop body does. */
  lemma MinOfStep(s: seq<Byte>, v: Byte)
    ensures MinOf(s + [v]) == if v < MinOf(s) then v else MinOf(s)
  {
    assert (s + [v])[..|s|] == s;
  }

  /** One more sample updates the running maximum as the loop body does. */
  lemma MaxOfStep(s: seq<Byte>, v: Byte)
    ensures MaxOf(s + [v]) == if v > MaxOf(s) then v else MaxOf(s)
  {
    assert (s + [v])[..|s|] == s;
  }

  /** Extending a prefix by one sample updates both running extremes. */
  lemma ExtremesPrefix(s: seq<Byte>, k: nat)
    requires k < |s|
    ensures MinOf(s[..k + 1]) == if s[k] < MinOf(s[..k]) then s[k] else MinOf(s[..k])
    ensures MaxOf(s[..k + 1]) == if s[k] > MaxOf(s[..k]) then s[k] else MaxOf(s[..k])
  {
    assert s[..k + 1] == s[..k] + [s[k]];
    MinOfStep(s[..k], s[k]);
    MaxOfStep(s[..k], s[k]);
  }

  /** The running minimum and maximum of two pieces combine. */
  lemma {:induction false} ExtremesConcat(a: seq<Byte>, b: seq<Byte>)
    ensures MinOf(a + b) == Min(MinOf(a), MinOf(b))
    ensures MaxOf(a + b) == Max(MaxOf(a), MaxOf(b))
  {
    if |b| > 0 {
      var p, v := b[..|b| - 1], b[|b| - 1];
      assert a + b == (a + p) + [v];
      assert b == p + [v];
      ExtremesConcat(a, p);
      MinOfStep(a + p, v);
      MaxOfStep(a + p, v);
      MinOfStep(p, v);
      MaxOfStep(p, v);
    } else {
      assert a + b == a;
    }
  }

  predicate Sorted(s: seq<Byte>)
  {
    forall i, j :: 0 <= i < j < |s| ==> s[i] <= s[j]
  }

  /** `v` inserted into the sorted sequence `s` before its first larger
      element. */
  function Insert(v: Byte, s: seq<Byte>): (r: seq<Byte>)
    ensures multiset(r) == multiset(s) + multiset{v} && |r| == |s| + 1
  {
    if |s| == 0 then [v]
    else if v <= s[0] then [v] + s
    else
      assert s == [s[0]] + s[1..];
      [s[0]] + Insert(v, s[1..])
  }

  /** Insertion starts with either the new sample or the old first one. */
  lemma InsertHead(v: Byte, s: seq<Byte>)
    ensures Insert(v, s)[0] == v || (|s| > 0 && Insert(v, s)[0] == s[0])
  {
  }

  lemma {:induction false} InsertSorted(v: Byte, s: seq<Byte>)
    requires Sorted(s)
    ensures Sorted(Insert(v, s))
  {
    if |s| > 0 && v > s[0] {
      InsertSorted(v, s[1..]);
      var r := Insert(v, s[1..]);
      InsertHead(v, s[1..]);
      assert s[0] <= r[0];
      assert Insert(v, s) == [s[0]] + r;
    }
  }

  /** The sorted order of `s`: the value `std::sort` leaves in a vector. */
  function SortSeq(s: seq<Byte>): (r: seq<Byte>)
    ensures multiset(r) == multiset(s) && |r| == |s|
  {
    if |s| == 0 then []
    else
      assert s == [s[0]] + s[1..];
      Insert(s[0], SortSeq(s[1..]))
  }

  lemma {:induction false} SortSeqSorted(s: seq<Byte>)
    ensures Sorted(SortSeq(s))
  {
    if |s| > 0 {
      SortSeqSorted(s[1..]);
      InsertSorted(s[0], SortSeq(s[1..]));
    }
  }

  /** Two sorted arrangements of one multiset start with the same sample. */
  lemma SortedHeads(a: seq<Byte>, b: seq<Byte>)
    requires Sorted(a) && Sorted(b) && multiset(a) == multiset(b) && |a| > 0
    ensures |b| > 0 && a[0] == b[0]
  {
    assert a[0] in multiset(b);
    var j :| 0 <= j < |b| && b[j] == a[0];
    assert b[0] <= a[0];
    assert b[0] in multiset(a);
    var i :| 0 <= i < |a| && a[i] == b[0];
    assert a[0] <= b[0];
  }

  lemma TailMultiset(a: seq<Byte>)
    requires |a| > 0
    ensures multiset(a[1..]) == multiset(a) - multiset{a[0]}
  {
    assert a == [a[0]] + a[1..];
  }

  /** There is only one sorted arrangement of a multiset of samples. */
  lemma {:induction false} SortedUnique(a: seq<Byte>, b: seq<Byte>)
    requires Sorted(a) && Sorted(b) && multiset(a) == multiset(b)
    ensures a == b
  {
    if |a| > 0 {
      SortedHeads(a, b);
      var ta, tb := a[1..], b[1..];
      TailMultiset(a);
      TailMultiset(b);
      assert Sorted(ta) && Sorted(tb);
      SortedUnique(ta, tb);
    } else {
      assert |b| == |multiset(b)| == 0;
    }
  }

  /** The median as `getMedian` takes it: the element at index `size / 2`
      of the sorted window (the upper median of an even-sized one). */
  function Median(s: seq<Byte>): Byte
    requires |s| > 0
  {
    SortSeq(s)[|s| / 2]
  }

  /** The median is one of the samples and lies between their minimum and
      maximum. */
  lemma MedianBounds(s: seq<Byte>)
    requires |s| > 0
    ensures Median(s) in s
    ensures MinOf(s) <= Median(s) <= MaxOf(s)
  {
    var r := SortSeq(s);
    assert r[|s| / 2] in multiset(r);
    assert Median(s) in multiset(s);
    MinOfBounds(s);
    MaxOfBounds(s);
  }

  /** The first `i` samples are sorted and none exceeds a later one: the
      state after `i` passes of selection sort. */
  ghost predicate SelectedPrefix(s: seq<Byte>, i: nat)
  {
    && i <= |s|
    && (forall p, q :: 0 <= p < q < i ==> s[p] <= s[q])
    && (forall p, q :: 0 <= p < i <= q < |s| ==> s[p] <= s[q])
  }

  /** Swapping a smallest sample of `s[i..]` into position `i` extends the
      selected prefix by one and keeps the samples. */
  lemma SelectStep(s: seq<Byte>, i: nat, m: nat)
    requires SelectedPrefix(s, i) && i <= m < |s|
    requires forall q :: i <= q < |s| ==> s[m] <= s[q]
    ensures SelectedPrefix(s[i := s[m]][m := s[i]], i + 1)
    ensures multiset(s[i := s[m]][m := s[i]]) == multiset(s)
  {
    var t := s[i := s[m]][m := s[i]];
    forall p, q | 0 <= p < i + 1 <= q < |t|
      ensures t[p] <= t[q]
    {
      if p < i {
        assert t[p] == s[p];
        assert t[q] == s[q] || t[q] == s[i] || t[q] == s[m];
      } else {
        assert t[p] == s[m];
      }
    }
  }

  /** Selection sort in place: the sorted arrangement of the array's
      samples. Any sorting algorithm ends in the same arrangement
      (`SortedUnique`). */
  method SortInPlace(a: array<Byte>)
    modifies a
    ensures Sorted(a[..]) && multiset(a[..]) == old(multiset(a[..]))
  {
    for i := 0 to a.Length
      invariant SelectedPrefix(a[..], i)
      invariant multiset(a[..]) == old(multiset(a[..]))
    {
      var m := MinIndex(a, i);
      ghost var b := a[..];
      SelectStep(b, i, m);
      a[i], a[m] := a[m], a[i];
      assert a[..] == b[i := b[m]][m := b[i]];
    }
  }

  /** The position of a smallest element of `a[i..]`. */
  method MinIndex(a: array<Byte>, i: nat) returns (m: nat)
    requires i < a.Length
    ensures i <= m < a.Length && forall q :: i <= q < a.Length ==> a[m] <= a[q]
  {
    m := i;
    var j := i + 1;
    while j < a.Length
      invariant i <= m < a.Length && i + 1 <= j <= a.Length
      invariant forall q :: i <= q < j ==> a[m] <= a[q]
    {
      if a[j] < a[m] {
        m := j;
      }
      j := j + 1;
    }
  }

  /** `getMedian`: sorts the vector in place and returns its middle element. */
  method GetMedian(values: array<Byte>) returns (m: Byte)
    requires values.Length > 0
    modifies values
    ensures values[..] == SortSeq(old(values[..]))
    ensures m == Median(old(values[..]))
  {
    ghost var s := values[..];
    SortInPlace(values);
    SortSeqSorted(s);
    SortedUnique(values[..], SortSeq(s));
    m := values[values.Length / 2];
  }

  /** The side of a square window of half-width `off`. */
  function Side(off: nat): nat { 2 * off + 1 }

  /** The `(2 off + 1)^2` samples of channel `ch` around (x, y), rows
      `ky = -off..off` outer and columns `kx = -off..off` inner, each
      coordinate clamped into the image. */
  function Window(r: Raster, x: int, y: int, ch: int, off: nat): (s: seq<Byte>)
    requires r.Valid()
    ensures |s| == Side(off) * Side(off)
  {
    var n := Side(off);
    seq(n * n, i => r.At(ClampCoord(x + i % n - off, r.width), ClampCoord(y + i / n - off, r.height), ch))
  }

  lemma WindowAt(r: Raster, x: int, y: int, ch: int, off: nat, ky: nat, kx: nat)
    requires r.Valid() && ky < Side(off) && kx < Side(off)
    ensures ky * Side(off) + kx < |Window(r, x, y, ch, off)|
    ensures Window(r, x, y, ch, off)[ky * Side(off) + kx] ==
      r.At(ClampCoord(x + kx - off, r.width), ClampCoord(y + ky - off, r.height), ch)
  {
    var n := Side(off);
    IdxBound(n, n, 1, kx, ky, 0);
    DivModUnique(ky, n, kx);
  }

  /** The ky/kx loops read the window in order: the sample taken at offsets
      (kx, ky) extends the prefix read so far by one. */
  lemma WindowStep(r: Raster, x: int, y: int, ch: int, off: nat, kx: int, ky: int, k: int)
    requires r.Valid() && -(off as int) <= kx <= off && -(off as int) <= ky <= off
    requires k == (ky + off) * Side(off) + (kx + off)
    ensures 0 <= k < |Window(r, x, y, ch, off)|
    ensures Window(r, x, y, ch, off)[..k + 1] ==
      Window(r, x, y, ch, off)[..k] + [r.At(ClampCoord(x + kx, r.width), ClampCoord(y + ky, r.height), ch)]
  {
    var i: nat, j: nat, n := ky + off, kx + off, Side(off);
    WindowAt(r, x, y, ch, off, i, j);
    MulMono(0, i, n);
    assert k == i * n + j;
    assert x + j - off == x + kx && y + i - off == y + ky;
    PrefixSnoc(Window(r, x, y, ch, off), k);
  }

  function RowSample(r: Raster, x: int, y: int, ch: int, off: nat, ky: int, j: int): Byte
    requires r.Valid()
  {
    r.At(ClampCoord(x + j - off, r.width), ClampCoord(y + ky, r.height), ch)
  }

  /** Row `ky` of the window: the samples the inner `kx` loop reads. */
  function WindowRow(r: Raster, x: int, y: int, ch: int, off: nat, ky: int): (s: seq<Byte>)
    requires r.Valid()
    ensures |s| == Side(off)
  {
    seq(Side(off), (j: int) => RowSample(r, x, y, ch, off, ky, j))
  }

  /** The window is its rows in order: one pass of the outer `ky` loop
      extends the prefix read so far by row `ky`. */
  lemma WindowRows(r: Raster, x: int, y: int, ch: int, off: nat, ky: int, i: nat, b: nat)
    requires r.Valid() && -(off as int) <= ky <= off && i == ky + off && b == i * Side(off)
    ensures b + Side(off) <= |Window(r, x, y, ch, off)|
    ensures Window(r, x, y, ch, off)[..b + Side(off)] ==
      Window(r, x, y, ch, off)[..b] + WindowRow(r, x, y, ch, off, ky)
  {
    var n := Side(off);
    MulMono(i + 1, n, n);
    var s, row := Window(r, x, y, ch, off), WindowRow(r, x, y, ch, off, ky);
    assert b + n <= |s|;
    forall j | 0 <= j < n
      ensures s[b + j] == row[j]
    {
      WindowAt(r, x, y, ch, off, i, j);
      assert y + i - off == y + ky;
    }
    assert s[..b + n] == s[..b] + row;
  }

  /** The first `i` rows of the window (`ky = -off .. i - 1 - off`), in the
      order the outer loop visits them. */
  function Rows(r: Raster, x: int, y: int, ch: int, off: nat, i: nat): seq<Byte>
    requires r.Valid()
  {
    if i == 0 then [] else Rows(r, x, y, ch, off, i - 1) + WindowRow(r, x, y, ch, off, i - 1 - off)
  }

  /** One pass of the outer loop appends row `ky = i - off`. */
  lemma RowsStep(r: Raster, x: int, y: int, ch: int, off: nat, i: nat, ky: int)
    requires r.Valid() && ky == i - off
    ensures Rows(r, x, y, ch, off, i + 1) == Rows(r, x, y, ch, off, i) + WindowRow(r, x, y, ch, off, ky)
  {
  }

  /** The running minimum after row `ky = i - off` combines the earlier rows' minimum with that row's. */
  lemma RowsMinStep(r: Raster, x: int, y: int, ch: int, off: nat, i: nat, ky: int)
    requires r.Valid() && ky == i - off
    ensures MinOf(Rows(r, x, y, ch, off, i + 1)) == Min(MinOf(Rows(r, x, y, ch, off, i)), MinOf(WindowRow(r, x, y, ch, off, ky)))
  {
    RowsStep(r, x, y, ch, off, i, ky);
    ExtremesConcat(Rows(r, x, y, ch, off, i), WindowRow(r, x, y, ch, off, ky));
  }

  /** The running maximum after row `ky = i - off` combines the earlier rows' maximum with that row's. */
  lemma RowsMaxStep(r: Raster, x: int, y: int, ch: int, off: nat, i: nat, ky: int)
    requires r.Valid() && ky == i - off
    ensures MaxOf(Rows(r, x, y, ch, off, i + 1)) == Max(MaxOf(Rows(r, x, y, ch, off, i)), MaxOf(WindowRow(r, x, y, ch, off, ky)))
  {
    RowsStep(r, x, y, ch, off, i, ky);
    ExtremesConcat(Rows(r, x, y, ch, off, i), WindowRow(r, x, y, ch, off, ky));
  }

  /** The first `i` rows are the window's first `i * Side(off)` samples. */
  lemma {:induction false} RowsPrefix(r: Raster, x: int, y: int, ch: int, off: nat, i: nat, b: nat)
    requires r.Valid() && i <= Side(off) && b == i * Side(off)
    ensures b <= |Window(r, x, y, ch, off)|
    ensures Rows(r, x, y, ch, off, i) == Window(r, x, y, ch, off)[..b]
  {
    if i > 0 {
      var j: nat := i - 1;
      RowStep(j, Side(off));
      MulMono(0, j, Side(off));
      var c: nat := j * Side(off);
      RowsPrefix(r, x, y, ch, off, j, c);
      WindowRows(r, x, y, ch, off, j - off, j, c);
      RowsStep(r, x, y, ch, off, j, j - off);
    }
  }

  /** All `Side(off)` rows make up the window. */
  lemma WindowIsRows(r: Raster, x: int, y: int, ch: int, off: nat)
    requires r.Valid()
    ensures Window(r, x, y, ch, off) == Rows(r, x, y, ch, off, Side(off))
  {
    var s := Window(r, x, y, ch, off);
    RowsPrefix(r, x, y, ch, off, Side(off), |s|);
    assert s[..|s|] == s;
  }

  /** The running extremes after all rows are the window's. */
  lemma WindowMinIs(r: Raster, x: int, y: int, ch: int, off: nat, v: Byte)
    requires r.Valid() && v == MinOf(Rows(r, x, y, ch, off, Side(off)))
    ensures v == MinOf(Window(r, x, y, ch, off))
  {
    WindowIsRows(r, x, y, ch, off);
  }

  lemma WindowMaxIs(r: Raster, x: int, y: int, ch: int, off: nat, v: Byte)
    requires r.Valid() && v == MaxOf(Rows(r, x, y, ch, off, Side(off)))
    ensures v == MaxOf(Window(r, x, y, ch, off))
  {
    WindowIsRows(r, x, y, ch, off);
  }

  lemma PrefixSnoc(s: seq<Byte>, k: nat)
    requires k < |s|
    ensures s[..k + 1] == s[..k] + [s[k]]
  {
  }

  /** The centre of the window is the pixel itself. */
  lemma WindowCentre(r: Raster, x: int, y: int, ch: int, off: nat)
    requires r.Valid() && r.InBounds(x, y)
    ensures r.At(x, y, ch) in Window(r, x, y, ch, off)
  {
    WindowAt(r, x, y, ch, off, off, off);
  }

  /** Every window position is read at a clamped coordinate pair; in a
      non-empty image that is the value of some pixel of the image. */
  lemma WindowInImage(r: Raster, x: int, y: int, ch: int, off: nat, i: nat)
    requires r.Valid() && r.width > 0 && r.height > 0 && i < |Window(r, x, y, ch, off)|
    ensures exists px, py :: 0 <= px < r.width && 0 <= py < r.height && Window(r, x, y, ch, off)[i] == r.At(px, py, ch)
  {
    var n := Side(off);
    var px := ClampCoord(x + i % n - off, r.width);
    var py := ClampCoord(y + i / n - off, r.height);
    assert Window(r, x, y, ch, off)[i] == r.At(px, py, ch);
  }
}
