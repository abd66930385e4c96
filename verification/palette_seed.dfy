/**
 * `kppInitWeighted(points, k)`: weighted k-means++ seeding. The first centroid is a
 * point drawn with probability proportional to its weight; each further centroid is
 * drawn with probability proportional to weight times the squared distance to the
 * nearest centroid so far, or uniformly when all those products are 0. `Math.random`
 * is a supplied sequence of draws in [0, 1), one per centroid.
 */
module PaletteSeed {
  import opened Js
  import opened Utils
  import opened PaletteHistogram

  /** `p.slice(0, 3)`. */
  function RgbOf(p: Point): Rgb
  {
    Rgb(p.r, p.g, p.b)
  }

  function Square(x: int): (y: int)
    ensures y >= 0 && (y == 0 <==> x == 0)
  {
    x * x
  }

  /** The squared RGB distance `dx*dx + dy*dy + dz*dz`; 0 exactly at the same colour. */
  function Dist(p: Point, c: Rgb): (d: int)
    ensures d >= 0
    ensures d == 0 <==> RgbOf(p) == c
  {
    Square(p.r - c.r) + Square(p.g - c.g) + Square(p.b - c.b)
  }

  /** The distance from p to the nearest of the centroids. */
  function MinDist(p: Point, cs: seq<Rgb>): (d: int)
    requires cs != []
    ensures forall j :: 0 <= j < |cs| ==> d <= Dist(p, cs[j])
  {
    if |cs| == 1 then Dist(p, cs[0])
    else
      var m := MinDist(p, cs[..|cs| - 1]);
      assert forall j :: 0 <= j < |cs| - 1 ==> cs[..|cs| - 1][j] == cs[j];
      Min(m, Dist(p, cs[|cs| - 1]))
  }

  /** The nearest distance is the distance to one of the centroids. */
  lemma {:induction false} MinDistAttained(p: Point, cs: seq<Rgb>) returns (j: nat)
    requires cs != []
    ensures j < |cs| && MinDist(p, cs) == Dist(p, cs[j])
  {
    if |cs| == 1 {
      j := 0;
    } else {
      j := MinDistAttained(p, cs[..|cs| - 1]);
      if MinDist(p, cs) != Dist(p, cs[..|cs| - 1][j]) {
        j := |cs| - 1;
      }
    }
  }

  /** The sum of the first n entries of a list of integers. */
  function PrefixSum(ws: seq<int>, n: nat): int
    requires n <= |ws|
  {
    if n == 0 then 0 else PrefixSum(ws, n - 1) + ws[n - 1]
  }

  /** The sum of a list of integers. */
  function Sum(ws: seq<int>): int
  {
    PrefixSum(ws, |ws|)
  }

  lemma {:induction false} PrefixNonNegative(ws: seq<int>, n: nat)
    requires n <= |ws| && forall i :: 0 <= i < |ws| ==> ws[i] >= 0
    ensures PrefixSum(ws, n) >= 0
  {
    if n > 0 {
      PrefixNonNegative(ws, n - 1);
    }
  }

  /** The weights `p[3]` of the points. */
  function Weights(points: seq<Point>): (ws: seq<int>)
    ensures |ws| == |points|
  {
    seq(|points|, i requires 0 <= i < |points| => points[i].w)
  }

  /** `d2`: each point's weight times its squared distance to the nearest centroid. */
  function D2(points: seq<Point>, cs: seq<Rgb>): (ws: seq<int>)
    requires cs != []
    ensures |ws| == |points|
  {
    seq(|points|, i requires 0 <= i < |points| => MinDist(points[i], cs) * points[i].w)
  }

  /** The scan `for (...) { r -= w[i]; if (r <= 0) stop }` resumed at index i with r
      left: it stops at the first j whose running sum from i reaches r, or runs off
      the end. */
  function Scan(ws: seq<int>, r: real, i: nat): (j: nat)
    requires i <= |ws|
    ensures i <= j <= |ws|
    decreases |ws| - i
  {
    if i == |ws| then |ws|
    else if r - ws[i] as real <= 0.0 then i
    else Scan(ws, r - ws[i] as real, i + 1)
  }

  /** The scan stops exactly at the first index whose running sum from i reaches r. */
  lemma {:induction false} ScanSpec(ws: seq<int>, r: real, i: nat)
    requires i <= |ws|
    ensures var j := Scan(ws, r, i);
      (j < |ws| ==> r <= (PrefixSum(ws, j + 1) - PrefixSum(ws, i)) as real) &&
      (forall m :: i < m <= j ==> r > (PrefixSum(ws, m) - PrefixSum(ws, i)) as real)
    decreases |ws| - i
  {
    if i < |ws| && r - ws[i] as real > 0.0 {
      ScanSpec(ws, r - ws[i] as real, i + 1);
    }
  }

  /** The index a scan picks, falling back to the last entry when it runs off the end
      (`points[points.length-1]`, `Math.min(idx, points.length-1)`). */
  function Pick(ws: seq<int>, r: real): (j: nat)
    requires ws != []
    ensures j < |ws|
  {
    Min(Scan(ws, r, 0), |ws| - 1)
  }

  /** A draw in [0, 1) scaled by a positive total never runs off the end, and with a
      positive draw the chosen entry has positive weight: an entry of weight 0 (a point
      already at a centroid) is not picked. */
  lemma PickCovers(ws: seq<int>, draw: real)
    requires ws != [] && forall i :: 0 <= i < |ws| ==> ws[i] >= 0
    requires 0.0 <= draw < 1.0 && Sum(ws) > 0
    ensures Scan(ws, Scaled(draw, Sum(ws)), 0) < |ws|
    ensures draw > 0.0 ==> ws[Pick(ws, Scaled(draw, Sum(ws)))] > 0
  {
    var x := Scaled(draw, Sum(ws));
    ScaledDraw(draw, Sum(ws));
    var j := Scan(ws, x, 0);
    ScanSpec(ws, x, 0);
    assert PrefixSum(ws, 0) == 0 && Sum(ws) == PrefixSum(ws, |ws|);
    if j == |ws| {
      assert false;
    }
    if draw > 0.0 && j > 0 {
      assert x > (PrefixSum(ws, j) - PrefixSum(ws, 0)) as real;
    }
  }

  /** `Math.random() * total`. */
  function Scaled(draw: real, total: int): real
  {
    draw * total as real
  }

  lemma ScaledDraw(draw: real, total: int)
    requires 0.0 <= draw < 1.0 && total > 0
    ensures 0.0 <= Scaled(draw, total) < total as real && (draw > 0.0 ==> Scaled(draw, total) > 0.0)
  {
  }

  /** Draws usable as `Math.random()` results. */
  predicate Draws(draws: seq<real>)
  {
    forall i :: 0 <= i < |draws| ==> 0.0 <= draws[i] < 1.0
  }

  /** The index of the point chosen with the draw d after the centroids cs:
      `pickByWeight()` for the first; then `(d*n)|0` when every D² product is 0, else
      the D² scan. */
  function SeedIndex(points: seq<Point>, cs: seq<Rgb>, d: real): (i: nat)
    requires points != [] && 0.0 <= d < 1.0
    ensures i < |points|
  {
    if cs == [] then
      var ws := Weights(points);
      Pick(ws, Scaled(d, Sum(ws)))
    else
      var ws := D2(points, cs);
      var sum := Sum(ws);
      if sum == 0 then UniformIndex(d, |points|) else Pick(ws, Scaled(d, sum))
  }

  /** The centroid chosen with the draw d after the centroids cs. */
  function NextSeed(points: seq<Point>, cs: seq<Rgb>, d: real): Rgb
    requires points != [] && 0.0 <= d < 1.0
  {
    RgbOf(points[SeedIndex(points, cs, d)])
  }

  /** `(Math.random() * n) | 0` for a draw in [0, 1). */
  function UniformIndex(d: real, n: nat): (i: nat)
    requires 0.0 <= d < 1.0 && n > 0
    ensures i < n
  {
    assert 0.0 <= d * n as real < n as real;
    (d * n as real).Floor
  }

  /** The first c centroids of the seeding, using draws[0..c]. */
  function Seeds(points: seq<Point>, draws: seq<real>, c: nat): (cs: seq<Rgb>)
    requires points != [] && Draws(draws) && c <= |draws|
    ensures |cs| == c
  {
    if c == 0 then []
    else
      var prev := Seeds(points, draws, c - 1);
      prev + [NextSeed(points, prev, draws[c - 1])]
  }

  lemma SeedsNext(points: seq<Point>, draws: seq<real>, c: nat)
    requires points != [] && Draws(draws) && c < |draws|
    ensures Seeds(points, draws, c + 1) == Seeds(points, draws, c) + [NextSeed(points, Seeds(points, draws, c), draws[c])]
  {
  }

  /** Every seed is a copy of some point's RGB. */
  lemma {:induction false} SeedsArePoints(points: seq<Point>, draws: seq<real>, c: nat)
    requires points != [] && Draws(draws) && c <= |draws|
    ensures forall j :: 0 <= j < c ==> exists i :: 0 <= i < |points| && Seeds(points, draws, c)[j] == RgbOf(points[i])
  {
    if c > 0 {
      SeedsArePoints(points, draws, c - 1);
      var prev := Seeds(points, draws, c - 1);
      var cs := Seeds(points, draws, c);
      assert cs[..c - 1] == prev;
      forall j | 0 <= j < c ensures exists i :: 0 <= i < |points| && cs[j] == RgbOf(points[i]) {
        if j < c - 1 {
          assert cs[j] == prev[j];
        } else {
          var i := SeedIndex(points, prev, draws[c - 1]);
          assert cs[j] == RgbOf(points[i]);
        }
      }
    }
  }

  /** With weights at least 1 and a positive draw, a later seed never repeats an
      earlier one unless every point already sits on a centroid. */
  lemma NextSeedIsNew(points: seq<Point>, cs: seq<Rgb>, d: real)
    requires points != [] && cs != [] && 0.0 < d < 1.0
    requires forall i :: 0 <= i < |points| ==> points[i].w >= 1
    requires exists i :: 0 <= i < |points| && RgbOf(points[i]) !in cs
    ensures NextSeed(points, cs, d) !in cs
  {
    var ws := D2(points, cs);
    var i0 :| 0 <= i0 < |points| && RgbOf(points[i0]) !in cs;
    D2Signs(points, cs);
    SumPositive(ws, i0);
    PickCovers(ws, d);
    D2PositiveIsNew(points, cs, SeedIndex(points, cs, d));
  }

  /** Every D² product is non-negative, and positive for a point off the centroids. */
  lemma D2Signs(points: seq<Point>, cs: seq<Rgb>)
    requires cs != [] && forall i :: 0 <= i < |points| ==> points[i].w >= 1
    ensures var ws := D2(points, cs);
      forall i :: 0 <= i < |points| ==> ws[i] >= 0 && (RgbOf(points[i]) !in cs ==> ws[i] > 0)
  {
    var ws := D2(points, cs);
    forall i | 0 <= i < |points| ensures ws[i] >= 0 && (RgbOf(points[i]) !in cs ==> ws[i] > 0) {
      var j := MinDistAttained(points[i], cs);
      if RgbOf(points[i]) !in cs {
        assert RgbOf(points[i]) != cs[j];
      }
      PositiveProduct(MinDist(points[i], cs), points[i].w);
    }
  }

  /** A point with a positive D² product is not on any centroid. */
  lemma D2PositiveIsNew(points: seq<Point>, cs: seq<Rgb>, j: nat)
    requires cs != [] && j < |points| && D2(points, cs)[j] > 0
    ensures RgbOf(points[j]) !in cs
  {
    var m := MinDist(points[j], cs);
    var k := MinDistAttained(points[j], cs);
    ZeroProduct(m, points[j].w);
    forall c | 0 <= c < |cs| ensures cs[c] != RgbOf(points[j]) {
      assert Dist(points[j], cs[c]) >= m > 0;
    }
  }

  lemma ZeroProduct(a: int, b: int)
    ensures a == 0 ==> a * b == 0
  {
  }

  lemma PositiveProduct(a: int, b: int)
    requires a >= 0 && b >= 1
    ensures a * b >= 0 && (a > 0 ==> a * b > 0)
  {
  }

  lemma {:induction false} PrefixPositive(ws: seq<int>, i: nat, n: nat)
    requires forall j :: 0 <= j < |ws| ==> ws[j] >= 0
    requires i < n <= |ws| && ws[i] > 0
    ensures PrefixSum(ws, n) > 0
  {
    if i == n - 1 {
      PrefixNonNegative(ws, n - 1);
    } else {
      PrefixPositive(ws, i, n - 1);
    }
  }

  lemma SumPositive(ws: seq<int>, i: nat)
    requires forall j :: 0 <= j < |ws| ==> ws[j] >= 0
    requires i < |ws| && ws[i] > 0
    ensures Sum(ws) > 0
  {
    PrefixPositive(ws, i, |ws|);
  }

  /** The distance from p to its nearest centroid, by the loop over `centroids`. */
  method NearestDistance(p: Point, cs: seq<Rgb>) returns (best: int)
    requires cs != []
    ensures best == MinDist(p, cs)
  {
    best := Dist(p, cs[0]);
    var j := 1;
    while j < |cs|
      invariant 1 <= j <= |cs|
      invariant best == MinDist(p, cs[..j])
    {
      assert cs[..j + 1][..j] == cs[..j];
      var dist := Dist(p, cs[j]);
      if dist < best {
        best := dist;
      }
      j := j + 1;
    }
    assert cs[..|cs|] == cs;
  }

  /** Fills `d2` with the weighted distances and returns their sum. */
  method FillD2(points: seq<Point>, cs: seq<Rgb>, d2: array<int>) returns (sum: int)
    requires cs != [] && d2.Length == |points|
    modifies d2
    ensures d2[..] == D2(points, cs) && sum == Sum(d2[..])
  {
    sum := 0;
    var i := 0;
    while i < |points|
      invariant 0 <= i <= |points|
      invariant forall j :: 0 <= j < i ==> d2[j] == D2(points, cs)[j]
      invariant sum == PrefixSum(D2(points, cs), i)
    {
      var best := NearestDistance(points[i], cs);
      var val := best * points[i].w;
      d2[i] := val;
      sum := sum + val;
      i := i + 1;
    }
    assert d2[..] == D2(points, cs);
  }

  /** The subtract-until-non-positive scan over a weight list, clamped to the last
      index. */
  method ScanPick(ws: seq<int>, x: real) returns (idx: nat)
    requires ws != []
    ensures idx == Pick(ws, x)
  {
    var r := x;
    idx := 0;
    while idx < |ws|
      invariant 0 <= idx <= |ws|
      invariant Scan(ws, r, idx) == Scan(ws, x, 0)
      decreases |ws| - idx
    {
      r := r - ws[idx] as real;
      if r <= 0.0 {
        break;
      }
      idx := idx + 1;
    }
    idx := Min(idx, |ws| - 1);
  }

  /** `pickByWeight()`: a point drawn in proportion to its weight. */
  method PickByWeight(points: seq<Point>, draw: real) returns (c: Rgb)
    requires points != [] && 0.0 <= draw < 1.0
    ensures c == NextSeed(points, [], draw)
  {
    var ws := Weights(points);
    var totalW := 0;
    var i := 0;
    while i < |points|
      invariant 0 <= i <= |points|
      invariant totalW == PrefixSum(ws, i)
    {
      assert ws[i] == points[i].w;
      totalW := totalW + points[i].w;
      i := i + 1;
    }
    assert totalW == Sum(ws);
    var idx := ScanPick(ws, Scaled(draw, totalW));
    c := RgbOf(points[idx]);
  }

  /** One round of the seeding loop: the D² products, then the uniform or the D² pick. */
  method NextCentroid(points: seq<Point>, centroids: seq<Rgb>, d2: array<int>, draw: real) returns (next: Rgb)
    requires points != [] && centroids != [] && d2.Length == |points| && 0.0 <= draw < 1.0
    modifies d2
    ensures next == NextSeed(points, centroids, draw)
  {
    var sum := FillD2(points, centroids, d2);
    if sum == 0 {
      next := RgbOf(points[UniformIndex(draw, |points|)]);
    } else {
      var idx := ScanPick(d2[..], Scaled(draw, sum));
      next := RgbOf(points[idx]);
    }
  }

  /** `kppInitWeighted(points, k)`: max(k, 1) centroids, drawn as `Seeds` prescribes. */
  method KppInitWeighted(points: seq<Point>, k: int, draws: seq<real>) returns (centroids: seq<Rgb>)
    requires points != [] && Draws(draws) && Max(k, 1) <= |draws|
    ensures centroids == Seeds(points, draws, Max(k, 1))
  {
    var first := PickByWeight(points, draws[0]);
    centroids := [first];
    SeedsNext(points, draws, 0);
    var d2 := new int[|points|];
    while |centroids| < k
      invariant 1 <= |centroids| <= Max(k, 1)
      invariant centroids == Seeds(points, draws, |centroids|)
      decreases k - |centroids|
    {
      var next := NextCentroid(points, centroids, d2, draws[|centroids|]);
      SeedsNext(points, draws, |centroids|);
      centroids := centroids + [next];
    }
    assert |centroids| == Max(k, 1);
  }

  /** The seeding returns exactly max(k, 1) centroids, each a copy of some point's RGB
      (also when every D² product is 0). */
  lemma KppShape(points: seq<Point>, k: int, draws: seq<real>)
    requires points != [] && Draws(draws) && Max(k, 1) <= |draws|
    ensures var cs := Seeds(points, draws, Max(k, 1));
      |cs| == Max(k, 1) &&
      forall j :: 0 <= j < |cs| ==> exists i :: 0 <= i < |points| && cs[j] == RgbOf(points[i])
  {
    SeedsArePoints(points, draws, Max(k, 1));
  }
}
