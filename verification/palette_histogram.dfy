/**
 * `buildHistogram(16)` of the dominant-palette extractor: every pixel with alpha at
 * least 16 is put in the bucket of its quantised colour (the top four bits of each
 * channel), buckets are kept in a `Map` in first-insertion order, and each bucket
 * becomes a weighted point `[round(sumR/count), round(sumG/count), round(sumB/count),
 * count]`.
 */
module PaletteHistogram {
  import opened Js
  import opened Sets

  /** A bucket of the histogram `Map`. */
  datatype Bucket = Bucket(sumR: int, sumG: int, sumB: int, count: int)

  /** The `Map` of buckets together with its key insertion order. */
  datatype Hist = Hist(bins: map<int, Bucket>, order: seq<int>)

  /** A weighted point `[r, g, b, w]`. */
  datatype Point = Point(r: int, g: int, b: int, w: int)

  /** The bucket key `(r>>4)<<8 | (g>>4)<<4 | (b>>4)`; the three 4-bit fields do not
      overlap, so the OR is a sum (see `KeyFields`). */
  function Key(r: Byte, g: Byte, b: Byte): (k: int)
    ensures 0 <= k < 4096
    ensures k / 256 == r / 16 && (k / 16) % 16 == g / 16 && k % 16 == b / 16
  {
    (r / 16) * 256 + (g / 16) * 16 + b / 16
  }

  /** On 8-bit values, shifting right by four is division by 16. */
  lemma ShiftIsDivision(x: bv8)
    ensures x >> 4 == x / 16
  {
  }

  /** Packing three values below 16 with shifts and OR is the same as adding them at
      weights 256, 16 and 1. */
  lemma KeyFields(ri: bv12, gi: bv12, bi: bv12)
    requires ri < 16 && gi < 16 && bi < 16
    ensures (ri << 8) | (gi << 4) | bi == ri * 256 + gi * 16 + bi
  {
  }

  /** Two colours share a bucket exactly when their top four bits agree per channel. */
  lemma KeyInjective(r: Byte, g: Byte, b: Byte, r': Byte, g': Byte, b': Byte)
    ensures Key(r, g, b) == Key(r', g', b') <==> r / 16 == r' / 16 && g / 16 == g' / 16 && b / 16 == b' / 16
  {
  }

  /** The number of whole pixels in an RGBA buffer. */
  function Pixels(data: seq<Byte>): nat
  {
    |data| / 4
  }

  /** Whether pixel p is counted: its alpha is at least 16. */
  predicate Counted(data: seq<Byte>, p: nat)
    requires 4 * p + 3 < |data|
  {
    data[4 * p + 3] >= 16
  }

  /** The number of counted pixels among the first n. */
  function CountedBefore(data: seq<Byte>, n: nat): (c: nat)
    requires 4 * n <= |data|
    ensures c <= n
  {
    if n == 0 then 0 else CountedBefore(data, n - 1) + (if Counted(data, n - 1) then 1 else 0)
  }

  /** One step of the pixel loop: skip a transparent pixel, else add it to its bucket,
      creating the bucket (and recording its key) the first time. */
  function AddPixel(h: Hist, r: Byte, g: Byte, b: Byte, a: Byte): Hist
  {
    if a < 16 then h
    else
      var k := Key(r, g, b);
      if k in h.bins then
        var u := h.bins[k];
        Hist(h.bins[k := Bucket(u.sumR + r, u.sumG + g, u.sumB + b, u.count + 1)], h.order)
      else
        Hist(h.bins[k := Bucket(r, g, b, 1)], h.order + [k])
  }

  /** The histogram after the first n pixels. */
  function HistOf(data: seq<Byte>, n: nat): Hist
    requires 4 * n <= |data|
  {
    if n == 0 then Hist(map[], [])
    else
      var i := 4 * (n - 1);
      AddPixel(HistOf(data, n - 1), data[i], data[i + 1], data[i + 2], data[i + 3])
  }

  /** A bucket of `count` bytes per channel: the sums lie between 0 and 255 per pixel. */
  predicate GoodBucket(u: Bucket)
  {
    u.count >= 1 && 0 <= u.sumR <= 255 * u.count && 0 <= u.sumG <= 255 * u.count && 0 <= u.sumB <= 255 * u.count
  }

  /** The histogram's invariant: the order lists every key exactly once, keys are
      below 4096 and every bucket is non-empty with byte-bounded sums. */
  ghost predicate WellFormed(h: Hist)
  {
    Distinct(h.order) &&
    (forall i :: 0 <= i < |h.order| ==> h.order[i] in h.bins && GoodBucket(h.bins[h.order[i]])) &&
    (forall k :: k in h.bins ==> k in h.order && 0 <= k < 4096 && GoodBucket(h.bins[k]))
  }

  /** The sum of the counts of the buckets listed in `ks`. */
  function TotalCount(bins: map<int, Bucket>, ks: seq<int>): int
    requires forall i :: 0 <= i < |ks| ==> ks[i] in bins
  {
    if ks == [] then 0 else TotalCount(bins, ks[..|ks| - 1]) + bins[ks[|ks| - 1]].count
  }

  /** Adding a pixel keeps the invariant and adds one to the total count exactly when
      the pixel is counted. */
  lemma AddPixelSpec(h: Hist, r: Byte, g: Byte, b: Byte, a: Byte)
    requires WellFormed(h)
    ensures var h' := AddPixel(h, r, g, b, a);
      WellFormed(h') &&
      TotalCount(h'.bins, h'.order) == TotalCount(h.bins, h.order) + (if a >= 16 then 1 else 0)
  {
    if a >= 16 {
      var k := Key(r, g, b);
      if k in h.bins {
        var u := h.bins[k];
        AddExisting(h, k, Bucket(u.sumR + r, u.sumG + g, u.sumB + b, u.count + 1));
      } else {
        AddFresh(h, k, Bucket(r, g, b, 1));
      }
    }
  }

  /** Growing the bucket of a key already present. */
  lemma AddExisting(h: Hist, k: int, u: Bucket)
    requires WellFormed(h) && k in h.bins && GoodBucket(u) && u.count == h.bins[k].count + 1
    ensures WellFormed(Hist(h.bins[k := u], h.order))
    ensures TotalCount(h.bins[k := u], h.order) == TotalCount(h.bins, h.order) + 1
  {
    TotalUpdate(h.bins, h.order, k, u);
  }

  /** Creating the bucket of a new key and recording the key last. */
  lemma AddFresh(h: Hist, k: int, u: Bucket)
    requires WellFormed(h) && k !in h.bins && 0 <= k < 4096 && GoodBucket(u) && u.count == 1
    ensures WellFormed(Hist(h.bins[k := u], h.order + [k]))
    ensures TotalCount(h.bins[k := u], h.order + [k]) == TotalCount(h.bins, h.order) + 1
  {
    FreshWellFormed(h, k, u);
    TotalFresh(h.bins, h.order, k, u);
  }

  lemma FreshWellFormed(h: Hist, k: int, u: Bucket)
    requires WellFormed(h) && k !in h.bins && 0 <= k < 4096 && GoodBucket(u)
    ensures WellFormed(Hist(h.bins[k := u], h.order + [k]))
  {
    var o, m := h.order + [k], h.bins[k := u];
    forall i, j | 0 <= i < j < |o| ensures o[i] != o[j] {
      if j == |h.order| {
        assert o[i] == h.order[i] && h.order[i] in h.bins;
      } else {
        assert o[i] == h.order[i] && o[j] == h.order[j];
      }
    }
    forall i | 0 <= i < |o| ensures o[i] in m {
      if i < |h.order| {
        assert o[i] == h.order[i] && h.order[i] in h.bins;
      }
    }
    forall x | x in m ensures x in o && 0 <= x < 4096 && GoodBucket(m[x]) {
      if x != k {
        assert x in h.bins && x in h.order;
      }
    }
  }

  /** Replacing the bucket of a key listed once changes the total by the difference. */
  lemma {:induction false} TotalUpdate(bins: map<int, Bucket>, ks: seq<int>, k: int, u: Bucket)
    requires forall i :: 0 <= i < |ks| ==> ks[i] in bins
    requires Distinct(ks) && k in ks
    ensures TotalCount(bins[k := u], ks) == TotalCount(bins, ks) - bins[k].count + u.count
  {
    var init, last := ks[..|ks| - 1], ks[|ks| - 1];
    if last == k {
      assert k !in init;
      TotalOther(bins, init, k, u);
    } else {
      assert k in init;
      TotalUpdate(bins, init, k, u);
    }
  }

  /** Changing a key that is not listed leaves the total alone. */
  lemma {:induction false} TotalOther(bins: map<int, Bucket>, ks: seq<int>, k: int, u: Bucket)
    requires forall i :: 0 <= i < |ks| ==> ks[i] in bins
    requires k !in ks
    ensures TotalCount(bins[k := u], ks) == TotalCount(bins, ks)
  {
    if ks != [] {
      TotalOther(bins, ks[..|ks| - 1], k, u);
    }
  }

  /** A new key appended with its bucket adds that bucket's count. */
  lemma TotalFresh(bins: map<int, Bucket>, ks: seq<int>, k: int, u: Bucket)
    requires forall i :: 0 <= i < |ks| ==> ks[i] in bins
    requires k !in ks
    ensures TotalCount(bins[k := u], ks + [k]) == TotalCount(bins, ks) + u.count
  {
    assert (ks + [k])[..|ks|] == ks;
    TotalOther(bins, ks, k, u);
  }

  /** The histogram of any prefix is well formed, and its bucket counts add up to the
      number of pixels with alpha at least 16. */
  lemma {:induction false} HistOfSpec(data: seq<Byte>, n: nat)
    requires 4 * n <= |data|
    ensures WellFormed(HistOf(data, n))
    ensures TotalCount(HistOf(data, n).bins, HistOf(data, n).order) == CountedBefore(data, n)
  {
    if n > 0 {
      HistOfSpec(data, n - 1);
      HistStep(data, n);
    }
  }

  /** One more pixel keeps the invariant, and the total follows the count of
      counted pixels. */
  lemma HistStep(data: seq<Byte>, n: nat)
    requires 0 < n && 4 * n <= |data| && WellFormed(HistOf(data, n - 1))
    requires TotalCount(HistOf(data, n - 1).bins, HistOf(data, n - 1).order) == CountedBefore(data, n - 1)
    ensures WellFormed(HistOf(data, n))
    ensures TotalCount(HistOf(data, n).bins, HistOf(data, n).order) == CountedBefore(data, n)
  {
    var i := 4 * (n - 1);
    var h := HistOf(data, n - 1);
    var h' := AddPixel(h, data[i], data[i + 1], data[i + 2], data[i + 3]);
    assert HistOf(data, n) == h';
    assert Counted(data, n - 1) <==> data[i + 3] >= 16;
    AddPixelSpec(h, data[i], data[i + 1], data[i + 2], data[i + 3]);
    assert CountedBefore(data, n) == CountedBefore(data, n - 1) + (if Counted(data, n - 1) then 1 else 0);
  }

  /** A bucket's point: rounded channel means and the pixel count as weight. */
  function PointOf(u: Bucket): (p: Point)
    requires GoodBucket(u)
    ensures 0 <= p.r <= 255 && 0 <= p.g <= 255 && 0 <= p.b <= 255 && p.w == u.count >= 1
  {
    RoundDivBounds(u.sumR, u.count, 0, 255);
    RoundDivBounds(u.sumG, u.count, 0, 255);
    RoundDivBounds(u.sumB, u.count, 0, 255);
    Point(RoundDiv(u.sumR, u.count), RoundDiv(u.sumG, u.count), RoundDiv(u.sumB, u.count), u.count)
  }

  /** The points of the buckets listed in `ks`, in that order. */
  function PointsOf(bins: map<int, Bucket>, ks: seq<int>): (ps: seq<Point>)
    requires forall i :: 0 <= i < |ks| ==> ks[i] in bins && GoodBucket(bins[ks[i]])
    ensures |ps| == |ks|
  {
    if ks == [] then [] else PointsOf(bins, ks[..|ks| - 1]) + [PointOf(bins[ks[|ks| - 1]])]
  }

  /** The sum of the weights of a list of points. */
  function TotalWeight(ps: seq<Point>): int
  {
    if ps == [] then 0 else TotalWeight(ps[..|ps| - 1]) + ps[|ps| - 1].w
  }

  lemma {:induction false} PointsWeight(bins: map<int, Bucket>, ks: seq<int>)
    requires forall i :: 0 <= i < |ks| ==> ks[i] in bins && GoodBucket(bins[ks[i]])
    ensures TotalWeight(PointsOf(bins, ks)) == TotalCount(bins, ks)
  {
    if ks != [] {
      PointsWeight(bins, ks[..|ks| - 1]);
      var ps := PointsOf(bins, ks);
      assert ps[..|ps| - 1] == PointsOf(bins, ks[..|ks| - 1]);
    }
  }

  /** A point list whose channels are bytes and whose weights are at least 1. */
  predicate GoodPoints(ps: seq<Point>)
  {
    forall i :: 0 <= i < |ps| ==> 0 <= ps[i].r <= 255 && 0 <= ps[i].g <= 255 && 0 <= ps[i].b <= 255 && ps[i].w >= 1
  }

  /** `buildHistogram(16)` over an RGBA buffer. */
  method BuildHistogram(data: seq<Byte>) returns (points: seq<Point>)
    requires |data| % 4 == 0
    ensures WellFormed(HistOf(data, Pixels(data)))
    ensures points == PointsOf(HistOf(data, Pixels(data)).bins, HistOf(data, Pixels(data)).order)
  {
    var bins, order := Accumulate(data);
    HistOfSpec(data, Pixels(data));
    points := ToPoints(bins, order);
  }

  /** The pixel loop: the `Map` and its key order after every pixel. */
  method Accumulate(data: seq<Byte>) returns (bins: map<int, Bucket>, order: seq<int>)
    requires |data| % 4 == 0
    ensures Hist(bins, order) == HistOf(data, Pixels(data))
  {
    bins, order := map[], [];
    var i, p := 0, 0;
    while i < |data|
      invariant i == 4 * p && 4 * p <= |data|
      invariant Hist(bins, order) == HistOf(data, p)
    {
      var a := data[i + 3];
      if a >= 16 {
        var r, g, b := data[i], data[i + 1], data[i + 2];
        var key := Key(r, g, b);
        if key in bins {
          var u := bins[key];
          bins := bins[key := Bucket(u.sumR + r, u.sumG + g, u.sumB + b, u.count + 1)];
        } else {
          bins := bins[key := Bucket(r, g, b, 1)];
          order := order + [key];
        }
      }
      i, p := i + 4, p + 1;
    }
  }

  /** The loop over `bins.values()` in insertion order that turns buckets into
      points. */
  method ToPoints(bins: map<int, Bucket>, order: seq<int>) returns (points: seq<Point>)
    requires forall i :: 0 <= i < |order| ==> order[i] in bins && GoodBucket(bins[order[i]])
    ensures points == PointsOf(bins, order)
  {
    points := [];
    var j := 0;
    while j < |order|
      invariant 0 <= j <= |order|
      invariant points == PointsOf(bins, order[..j])
    {
      assert order[..j + 1][..j] == order[..j];
      points := points + [PointOf(bins[order[j]])];
      j := j + 1;
    }
    assert order[..|order|] == order;
  }

  /** What the point list promises: at most 4096 points (one per bucket key), byte
      channels, weights at least 1, and total weight equal to the number of pixels
      with alpha at least 16. */
  lemma HistogramPoints(data: seq<Byte>)
    requires |data| % 4 == 0
    ensures var h := HistOf(data, Pixels(data));
      WellFormed(h) &&
      var ps := PointsOf(h.bins, h.order);
      |ps| <= 4096 && GoodPoints(ps) && TotalWeight(ps) == CountedBefore(data, Pixels(data))
  {
    var h := HistOf(data, Pixels(data));
    HistOfSpec(data, Pixels(data));
    PointsWeight(h.bins, h.order);
    DistinctBelow(h.order, 4096);
    PointsGood(h.bins, h.order);
  }

  lemma {:induction false} PointsGood(bins: map<int, Bucket>, ks: seq<int>)
    requires forall i :: 0 <= i < |ks| ==> ks[i] in bins && GoodBucket(bins[ks[i]])
    ensures GoodPoints(PointsOf(bins, ks))
  {
    if ks != [] {
      PointsGood(bins, ks[..|ks| - 1]);
    }
  }
}
