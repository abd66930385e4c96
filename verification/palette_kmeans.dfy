/**
 * `kmeansWeighted(points, k, iters)`: fixed-iteration weighted k-means over the
 * histogram points, seeded by `kppInitWeighted`, followed by the dominance ordering of
 * the result (clusters with no weight dropped, heavier first, ties in cluster order).
 */
module PaletteKMeans {
  import opened Js
  import opened Utils
  import opened PaletteHistogram
  import opened PaletteSeed

  /** `p[3] || 1`: a point's weight, with 0 read as 1. */
  function Wt(p: Point): (w: int)
    ensures w != 0
  {
    if p.w != 0 then p.w else 1
  }

  // ---------------------------------------------------------------------------
  // Assignment
  // ---------------------------------------------------------------------------

  /** The index the loop `if (d < best) { best = d; bi = i; }` keeps after the first n
      centroids. */
  function NearestIn(p: Point, cs: seq<Rgb>, n: nat): (b: nat)
    requires 1 <= n <= |cs|
    ensures b < n
    ensures forall j :: 0 <= j < n ==> Dist(p, cs[b]) <= Dist(p, cs[j])
    ensures forall j :: 0 <= j < b ==> Dist(p, cs[j]) > Dist(p, cs[b])
  {
    if n == 1 then 0
    else
      var b := NearestIn(p, cs, n - 1);
      if Dist(p, cs[n - 1]) < Dist(p, cs[b]) then n - 1 else b
  }

  /** The centroid a point is assigned to: the nearest, the lowest index on ties. */
  function Nearest(p: Point, cs: seq<Rgb>): (b: nat)
    requires cs != []
    ensures b < |cs|
  {
    NearestIn(p, cs, |cs|)
  }

  /** The per-cluster accumulator `[sumR, sumG, sumB, sumW]`. */
  datatype Acc = Acc(r: int, g: int, b: int, w: int)

  function Zeros(n: nat): (z: seq<Acc>)
    ensures |z| == n && forall i :: 0 <= i < n ==> z[i] == Acc(0, 0, 0, 0)
  {
    seq(n, _ => Acc(0, 0, 0, 0))
  }

  /** Adds a point, scaled by its weight, into an accumulator. */
  function AddTo(a: Acc, p: Point): Acc
  {
    var w := Wt(p);
    Acc(a.r + p.r * w, a.g + p.g * w, a.b + p.b * w, a.w + w)
  }

  /** The accumulators after the first m points have been assigned. */
  function AssignPrefix(points: seq<Point>, cs: seq<Rgb>, m: nat): (accs: seq<Acc>)
    requires cs != [] && m <= |points|
    ensures |accs| == |cs|
  {
    if m == 0 then Zeros(|cs|)
    else
      var prev := AssignPrefix(points, cs, m - 1);
      var bi := Nearest(points[m - 1], cs);
      prev[bi := AddTo(prev[bi], points[m - 1])]
  }

  /** The accumulators of one assignment pass over all points. */
  function Assign(points: seq<Point>, cs: seq<Rgb>): (accs: seq<Acc>)
    requires cs != []
    ensures |accs| == |cs|
  {
    AssignPrefix(points, cs, |points|)
  }

  /** The sum of the accumulated weights. */
  function TotalAccWeight(accs: seq<Acc>): int
  {
    if accs == [] then 0 else TotalAccWeight(accs[..|accs| - 1]) + accs[|accs| - 1].w
  }

  /** The sum of the points' weights `p[3] || 1`. */
  function TotalWt(points: seq<Point>, m: nat): int
    requires m <= |points|
  {
    if m == 0 then 0 else TotalWt(points, m - 1) + Wt(points[m - 1])
  }

  lemma {:induction false} TotalAccUpdate(accs: seq<Acc>, i: nat, a: Acc)
    requires i < |accs|
    ensures TotalAccWeight(accs[i := a]) == TotalAccWeight(accs) - accs[i].w + a.w
  {
    var n := |accs| - 1;
    assert accs[i := a][..n] == if i < n then accs[..n][i := a] else accs[..n];
    if i < n {
      TotalAccUpdate(accs[..n], i, a);
    }
  }

  lemma {:induction false} TotalZeros(n: nat)
    ensures TotalAccWeight(Zeros(n)) == 0
  {
    if n > 0 {
      assert Zeros(n)[..n - 1] == Zeros(n - 1);
      TotalZeros(n - 1);
    }
  }

  /** The per-cluster weights add up to the total weight of the points. */
  lemma {:induction false} AssignConservesWeight(points: seq<Point>, cs: seq<Rgb>, m: nat)
    requires cs != [] && m <= |points|
    ensures TotalAccWeight(AssignPrefix(points, cs, m)) == TotalWt(points, m)
  {
    if m == 0 {
      TotalZeros(|cs|);
    } else {
      AssignConservesWeight(points, cs, m - 1);
      var prev := AssignPrefix(points, cs, m - 1);
      var bi := Nearest(points[m - 1], cs);
      TotalAccUpdate(prev, bi, AddTo(prev[bi], points[m - 1]));
    }
  }

  /** A cluster's sums are those of a weighted set of byte colours. */
  predicate BoundedAcc(a: Acc)
  {
    a.w >= 0 && 0 <= a.r <= 255 * a.w && 0 <= a.g <= 255 * a.w && 0 <= a.b <= 255 * a.w
  }

  lemma ScaledByte(c: int, w: int)
    requires 0 <= c <= 255 && w >= 1
    ensures 0 <= c * w <= 255 * w
  {
  }

  /** With byte points of positive weight, every accumulator stays bounded. */
  lemma {:induction false} AssignBounded(points: seq<Point>, cs: seq<Rgb>, m: nat)
    requires cs != [] && m <= |points| && GoodPoints(points)
    ensures forall i :: 0 <= i < |cs| ==> BoundedAcc(AssignPrefix(points, cs, m)[i])
  {
    if m > 0 {
      AssignBounded(points, cs, m - 1);
      var p := points[m - 1];
      ScaledByte(p.r, p.w);
      ScaledByte(p.g, p.w);
      ScaledByte(p.b, p.w);
    }
  }

  // ---------------------------------------------------------------------------
  // Update and iteration
  // ---------------------------------------------------------------------------

  /** The new centroid of a cluster: the rounded weighted mean, or the old centroid
      when the cluster has no positive weight. */
  function Moved(c: Rgb, a: Acc): Rgb
  {
    if a.w > 0 then Rgb(RoundDiv(a.r, a.w), RoundDiv(a.g, a.w), RoundDiv(a.b, a.w)) else c
  }

  function Update(cs: seq<Rgb>, accs: seq<Acc>): (r: seq<Rgb>)
    requires |accs| == |cs|
    ensures |r| == |cs| && forall i :: 0 <= i < |cs| ==> r[i] == Moved(cs[i], accs[i])
  {
    seq(|cs|, i requires 0 <= i < |cs| => Moved(cs[i], accs[i]))
  }

  /** A bounded cluster moves to a byte colour. */
  lemma MovedValid(c: Rgb, a: Acc)
    requires ValidRgb(c) && BoundedAcc(a)
    ensures ValidRgb(Moved(c, a))
  {
    if a.w > 0 {
      RoundDivBounds(a.r, a.w, 0, 255);
      RoundDivBounds(a.g, a.w, 0, 255);
      RoundDivBounds(a.b, a.w, 0, 255);
    }
  }

  function WeightsOf(accs: seq<Acc>): (ws: seq<int>)
    ensures |ws| == |accs| && forall i :: 0 <= i < |accs| ==> ws[i] == accs[i].w
  {
    seq(|accs|, i requires 0 <= i < |accs| => accs[i].w)
  }

  /** The centroids and `weightsPerCluster` after t iterations (all weights 0 before the
      first). */
  function Run(points: seq<Point>, cs: seq<Rgb>, t: nat): (r: (seq<Rgb>, seq<int>))
    requires cs != []
    ensures |r.0| == |cs| && |r.1| == |cs|
  {
    if t == 0 then (cs, seq(|cs|, _ => 0))
    else
      var prev := Run(points, cs, t - 1).0;
      var accs := Assign(points, prev);
      (Update(prev, accs), WeightsOf(accs))
  }

  /** Iterating keeps every centroid a byte colour. */
  lemma {:induction false} RunValid(points: seq<Point>, cs: seq<Rgb>, t: nat)
    requires cs != [] && GoodPoints(points) && forall i :: 0 <= i < |cs| ==> ValidRgb(cs[i])
    ensures forall i :: 0 <= i < |cs| ==> ValidRgb(Run(points, cs, t).0[i])
  {
    if t > 0 {
      RunValid(points, cs, t - 1);
      var prev := Run(points, cs, t - 1).0;
      AssignBounded(points, prev, |points|);
      UpdateValid(prev, Assign(points, prev));
    }
  }

  /** Moving byte-colour centroids by bounded accumulators keeps byte colours. */
  lemma UpdateValid(cs: seq<Rgb>, accs: seq<Acc>)
    requires |accs| == |cs|
    requires forall i :: 0 <= i < |cs| ==> ValidRgb(cs[i]) && BoundedAcc(accs[i])
    ensures forall i :: 0 <= i < |cs| ==> ValidRgb(Update(cs, accs)[i])
  {
    forall i | 0 <= i < |cs| ensures ValidRgb(Update(cs, accs)[i]) {
      MovedValid(cs[i], accs[i]);
    }
  }

  // ---------------------------------------------------------------------------
  // Dominance ordering
  // ---------------------------------------------------------------------------

  /** `{ c, w }` for cluster i. */
  datatype Ranked = Ranked(c: Rgb, w: int, i: nat)

  /** The order the stable sort by `b.w - a.w` leaves: heavier first, then by index. */
  predicate Before(a: Ranked, b: Ranked)
  {
    a.w > b.w || (a.w == b.w && a.i < b.i)
  }

  predicate SortedRanks(xs: seq<Ranked>)
  {
    forall i, j :: 0 <= i < j < |xs| ==> Before(xs[i], xs[j])
  }

  /** `.map((c, i) => ({ c, w })).filter(x => x.w > 0)` over the first n clusters. */
  function Kept(cs: seq<Rgb>, ws: seq<int>, n: nat): (xs: seq<Ranked>)
    requires |ws| == |cs| && n <= |cs|
    ensures |xs| <= n
    ensures forall j :: 0 <= j < |xs| ==> xs[j].i < n && xs[j].w > 0 && xs[j] == Ranked(cs[xs[j].i], ws[xs[j].i], xs[j].i)
    ensures forall a, b :: 0 <= a < b < |xs| ==> xs[a].i < xs[b].i
  {
    if n == 0 then []
    else
      var prev := Kept(cs, ws, n - 1);
      if ws[n - 1] > 0 then prev + [Ranked(cs[n - 1], ws[n - 1], n - 1)] else prev
  }

  /** Every cluster of positive weight is kept. */
  lemma {:induction false} KeptComplete(cs: seq<Rgb>, ws: seq<int>, n: nat, i: nat)
    requires |ws| == |cs| && i < n <= |cs| && ws[i] > 0
    ensures Ranked(cs[i], ws[i], i) in Kept(cs, ws, n)
  {
    if i < n - 1 {
      KeptComplete(cs, ws, n - 1, i);
    }
  }

  /** Inserts x after every entry that comes before it. */
  function Insert(x: Ranked, xs: seq<Ranked>): (r: seq<Ranked>)
    ensures multiset(r) == multiset(xs) + multiset{x}
  {
    if xs == [] then [x]
    else
      assert xs == [xs[0]] + xs[1..];
      if Before(xs[0], x) then [xs[0]] + Insert(x, xs[1..]) else [x] + xs
  }

  lemma {:induction false} InsertSorted(x: Ranked, xs: seq<Ranked>)
    requires SortedRanks(xs) && forall j :: 0 <= j < |xs| ==> xs[j].i != x.i
    ensures SortedRanks(Insert(x, xs))
  {
    if xs != [] && Before(xs[0], x) {
      InsertSorted(x, xs[1..]);
      var r := Insert(x, xs[1..]);
      forall y | y in r ensures Before(xs[0], y) {
        assert y in multiset(r);
        if y != x {
          assert y in multiset(xs[1..]);
          var j :| 0 <= j < |xs[1..]| && xs[1..][j] == y;
          assert y == xs[j + 1];
        }
      }
    }
  }

  /** The stable sort by descending weight. */
  function SortRanks(xs: seq<Ranked>): (r: seq<Ranked>)
    ensures multiset(r) == multiset(xs)
  {
    if xs == [] then []
    else
      assert xs == xs[..|xs| - 1] + [xs[|xs| - 1]];
      Insert(xs[|xs| - 1], SortRanks(xs[..|xs| - 1]))
  }

  lemma {:induction false} SortRanksSorted(xs: seq<Ranked>)
    requires forall a, b :: 0 <= a < b < |xs| ==> xs[a].i != xs[b].i
    ensures SortedRanks(SortRanks(xs))
  {
    if xs != [] {
      var init, x := xs[..|xs| - 1], xs[|xs| - 1];
      SortRanksSorted(init);
      var s := SortRanks(init);
      forall j | 0 <= j < |s| ensures s[j].i != x.i {
        assert s[j] in multiset(init);
      }
      InsertSorted(x, s);
    }
  }

  /** The returned colours, `.sort((a, b) => b.w - a.w).map(x => x.c)`. */
  function Dominant(cs: seq<Rgb>, ws: seq<int>): (out: seq<Rgb>)
    requires |ws| == |cs|
    ensures |out| <= |cs|
  {
    var sorted := SortRanks(Kept(cs, ws, |cs|));
    assert |sorted| == |Kept(cs, ws, |cs|)| by {
      assert |multiset(sorted)| == |multiset(Kept(cs, ws, |cs|))|;
    }
    seq(|sorted|, j requires 0 <= j < |sorted| => sorted[j].c)
  }

  /** The dominance order: exactly the clusters of positive weight, each once, heavier
      first, ties in cluster order. */
  lemma DominantSpec(cs: seq<Rgb>, ws: seq<int>)
    requires |ws| == |cs|
    ensures var sorted := SortRanks(Kept(cs, ws, |cs|));
      SortedRanks(sorted) &&
      (forall x :: x in sorted ==> 0 <= x.i < |cs| && x.w == ws[x.i] > 0 && x.c == cs[x.i]) &&
      (forall i :: 0 <= i < |cs| && ws[i] > 0 ==> Ranked(cs[i], ws[i], i) in sorted) &&
      Dominant(cs, ws) == seq(|sorted|, j requires 0 <= j < |sorted| => sorted[j].c)
  {
    var kept := Kept(cs, ws, |cs|);
    var sorted := SortRanks(kept);
    SortRanksSorted(kept);
    forall x | x in sorted ensures 0 <= x.i < |cs| && x.w == ws[x.i] > 0 && x.c == cs[x.i] {
      assert x in multiset(kept);
    }
    forall i | 0 <= i < |cs| && ws[i] > 0 ensures Ranked(cs[i], ws[i], i) in sorted {
      KeptComplete(cs, ws, |cs|, i);
      assert Ranked(cs[i], ws[i], i) in multiset(kept);
    }
  }

  // ---------------------------------------------------------------------------
  // kmeansWeighted
  // ---------------------------------------------------------------------------

  /** What `kmeansWeighted(points, k, iters)` returns. */
  function KMeans(points: seq<Point>, k: int, iters: nat, draws: seq<real>): seq<Rgb>
    requires k >= 1 && Draws(draws) && Min(k, |points|) <= |draws|
  {
    if points == [] then []
    else
      var k' := Min(k, |points|);
      var r := Run(points, Seeds(points, draws, k'), iters);
      Dominant(r.0, r.1)
  }

  /** The result has no more colours than k or than there are points, is empty for no
      points, and consists of byte colours when the points are byte colours. */
  lemma KMeansShape(points: seq<Point>, k: int, iters: nat, draws: seq<real>)
    requires k >= 1 && Draws(draws) && Min(k, |points|) <= |draws|
    ensures points == [] ==> KMeans(points, k, iters, draws) == []
    ensures |KMeans(points, k, iters, draws)| <= Min(k, |points|)
    ensures GoodPoints(points) ==> forall j :: 0 <= j < |KMeans(points, k, iters, draws)| ==> ValidRgb(KMeans(points, k, iters, draws)[j])
  {
    if points != [] && GoodPoints(points) {
      var k' := Min(k, |points|);
      var cs := Seeds(points, draws, k');
      SeedsArePoints(points, draws, k');
      forall i | 0 <= i < k' ensures ValidRgb(cs[i]) {
        var p :| 0 <= p < |points| && cs[i] == RgbOf(points[p]);
      }
      RunValid(points, cs, iters);
      var r := Run(points, cs, iters);
      DominantSpec(r.0, r.1);
      var sorted := SortRanks(Kept(r.0, r.1, |r.0|));
      forall j | 0 <= j < |sorted| ensures ValidRgb(sorted[j].c) {
        assert sorted[j] in sorted;
      }
    }
  }

  /** The inner loop over the centroids that finds a point's cluster. */
  method NearestIndex(p: Point, centroids: array<Rgb>) returns (bi: nat)
    requires centroids.Length > 0
    ensures bi == Nearest(p, centroids[..])
  {
    bi := 0;
    var best := Dist(p, centroids[0]);
    var i := 1;
    while i < centroids.Length
      invariant 1 <= i <= centroids.Length
      invariant bi == NearestIn(p, centroids[..], i) && best == Dist(p, centroids[bi])
    {
      var d := Dist(p, centroids[i]);
      if d < best {
        best := d;
        bi := i;
      }
      i := i + 1;
    }
  }

  /** One assignment pass: zero the accumulators, then add each point to its cluster. */
  method AssignPass(points: seq<Point>, centroids: array<Rgb>, sums: array<Acc>, weights: array<int>)
    requires centroids.Length > 0 && sums.Length == centroids.Length && weights.Length == centroids.Length
    requires sums != weights as object
    modifies sums, weights
    ensures sums[..] == Assign(points, centroids[..]) && weights[..] == WeightsOf(sums[..])
  {
    ZeroPass(sums, weights);
    var m := 0;
    while m < |points|
      invariant 0 <= m <= |points|
      invariant sums[..] == AssignPrefix(points, centroids[..], m)
      invariant weights[..] == WeightsOf(sums[..])
    {
      var p := points[m];
      var bi := NearestIndex(p, centroids);
      AddPoint(sums, weights, bi, p);
      m := m + 1;
    }
  }

  /** `for (i < k) { sums[i][0..3] = 0; weightsPerCluster[i] = 0; }` */
  method ZeroPass(sums: array<Acc>, weights: array<int>)
    requires sums.Length == weights.Length
    modifies sums, weights
    ensures sums[..] == Zeros(sums.Length) && weights[..] == WeightsOf(sums[..])
  {
    var i := 0;
    while i < sums.Length
      invariant 0 <= i <= sums.Length
      invariant forall j :: 0 <= j < i ==> sums[j] == Acc(0, 0, 0, 0) && weights[j] == 0
    {
      sums[i] := Acc(0, 0, 0, 0);
      weights[i] := 0;
      i := i + 1;
    }
  }

  /** `sums[bi][0..2] += p[0..2] * w; sums[bi][3] += w; weightsPerCluster[bi] += w`. */
  method AddPoint(sums: array<Acc>, weights: array<int>, bi: nat, p: Point)
    requires bi < sums.Length == weights.Length && weights[..] == WeightsOf(sums[..])
    modifies sums, weights
    ensures sums[..] == old(sums[..])[bi := AddTo(old(sums[bi]), p)]
    ensures weights[..] == WeightsOf(sums[..])
  {
    var w := Wt(p);
    var a := sums[bi];
    sums[bi] := Acc(a.r + p.r * w, a.g + p.g * w, a.b + p.b * w, a.w + w);
    weights[bi] := weights[bi] + w;
  }

  /** The update pass: each cluster with positive weight moves to its rounded mean. */
  method UpdatePass(centroids: array<Rgb>, sums: array<Acc>)
    requires sums.Length == centroids.Length
    modifies centroids
    ensures centroids[..] == Update(old(centroids[..]), sums[..])
  {
    var i := 0;
    while i < centroids.Length
      invariant 0 <= i <= centroids.Length
      invariant forall j :: 0 <= j < i ==> centroids[j] == Moved(old(centroids[j]), sums[j])
      invariant forall j :: i <= j < centroids.Length ==> centroids[j] == old(centroids[j])
    {
      var a := sums[i];
      if a.w > 0 {
        centroids[i] := Rgb(RoundDiv(a.r, a.w), RoundDiv(a.g, a.w), RoundDiv(a.b, a.w));
      }
      i := i + 1;
    }
  }

  lemma RunNext(points: seq<Point>, cs: seq<Rgb>, t: nat)
    requires cs != []
    ensures var prev := Run(points, cs, t).0;
      Run(points, cs, t + 1) == (Update(prev, Assign(points, prev)), WeightsOf(Assign(points, prev)))
  {
  }

  /** The `iters` rounds of assignment and update. */
  method Iterate(points: seq<Point>, ghost seeds: seq<Rgb>, iters: nat, centroids: array<Rgb>, sums: array<Acc>, weights: array<int>)
    requires seeds != [] && centroids[..] == seeds && weights[..] == Run(points, seeds, 0).1
    requires sums.Length == centroids.Length && sums != weights as object
    modifies centroids, sums, weights
    ensures centroids[..] == Run(points, seeds, iters).0 && weights[..] == Run(points, seeds, iters).1
  {
    var t := 0;
    while t < iters
      invariant 0 <= t <= iters
      invariant centroids[..] == Run(points, seeds, t).0 && weights[..] == Run(points, seeds, t).1
      invariant weights.Length == centroids.Length
    {
      RunNext(points, seeds, t);
      Round(points, centroids, sums, weights);
      t := t + 1;
    }
  }

  /** One round: assign every point, then move the centroids. */
  method Round(points: seq<Point>, centroids: array<Rgb>, sums: array<Acc>, weights: array<int>)
    requires centroids.Length > 0 && sums.Length == centroids.Length && weights.Length == centroids.Length
    requires sums != weights as object
    modifies centroids, sums, weights
    ensures var acc := Assign(points, old(centroids[..]));
      centroids[..] == Update(old(centroids[..]), acc) && weights[..] == WeightsOf(acc)
  {
    AssignPass(points, centroids, sums, weights);
    UpdatePass(centroids, sums);
  }

  /** `kmeansWeighted(points, k, iters)`. */
  method KMeansWeighted(points: seq<Point>, k: int, iters: nat, draws: seq<real>) returns (out: seq<Rgb>)
    requires k >= 1 && Draws(draws) && Min(k, |points|) <= |draws|
    ensures out == KMeans(points, k, iters, draws)
  {
    if |points| == 0 {
      return [];
    }
    var kk := Min(k, |points|);
    var seeds := KppInitWeighted(points, kk, draws);
    assert Max(kk, 1) == kk;
    var centroids := new Rgb[kk](i requires 0 <= i < kk => seeds[i]);
    var sums := new Acc[kk](_ => Acc(0, 0, 0, 0));
    var weights := new int[kk](_ => 0);
    assert centroids[..] == seeds;
    assert weights[..] == Run(points, seeds, 0).1;
    Iterate(points, seeds, iters, centroids, sums, weights);
    out := Dominant(centroids[..], weights[..]);
  }
}
