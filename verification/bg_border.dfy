/**
 * Step 1 of the background remover (bgremove.js): sample the pixels within
 * `borderSize` of the image edges, take the component-wise median of their Lab
 * colours as the background colour, and call a pixel background when its CIE76
 * distance to that colour is at most the threshold. The sRGB → Lab conversion is
 * floating-point and is supplied as a function (`LabMath`); the distance test is
 * stated exactly over the reals.
 */
module BgBorder {
  import opened Js
  import opened BgGrid

  /** A colour in CIE Lab (D65). */
  datatype Lab = Lab(l: real, a: real, b: real)

  /** `rgbToLab(r, g, b)`, whose floating-point body is not modelled. */
  datatype LabMath = LabMath(toLab: (int, int, int) -> Lab)

  /** The squared CIE76 distance between two Lab colours. */
  function Dist2(p: Lab, q: Lab): (r: real)
    ensures r >= 0.0
  {
    (p.l - q.l) * (p.l - q.l) + (p.a - q.a) * (p.a - q.a) + (p.b - q.b) * (p.b - q.b)
  }

  /** `deltaE76(lab, bg) <= threshold`, stated without the square root. */
  predicate Near(lab: Lab, bg: Lab, t: real)
  {
    0.0 <= t && Dist2(lab, bg) <= t * t
  }

  /** Near is the square-root test: for the non-negative root d of the squared
      distance, `d <= t` exactly when Near holds. */
  lemma NearIsDeltaE(lab: Lab, bg: Lab, t: real, d: real)
    requires d >= 0.0 && d * d == Dist2(lab, bg)
    ensures Near(lab, bg, t) <==> d <= t
  {
    RootCompare(Dist2(lab, bg), d, t);
  }

  /** The distance is symmetric, and a pixel of exactly the background colour is
      background for every non-negative threshold. */
  lemma NearSymmetric(p: Lab, q: Lab, t: real)
    ensures Near(p, q, t) <==> Near(q, p, t)
    ensures Near(q, q, t) <==> 0.0 <= t
  {
  }

  // ---------------------------------------------------------------------------
  // Pixels and their Lab colours
  // ---------------------------------------------------------------------------

  /** The Lab colour of mask cell p: the RGB bytes at `4 * p`, `4 * p + 1`, `4 * p + 2`. */
  function PixelLab(data: seq<Byte>, p: nat, m: LabMath): Lab
    requires 4 * p + 2 < |data|
  {
    m.toLab(data[4 * p], data[4 * p + 1], data[4 * p + 2])
  }

  /** The background test of every pixel of a w×h RGBA image, in cell order. */
  function Classify(data: seq<Byte>, w: nat, h: nat, bg: Lab, t: real, m: LabMath): (isBg: seq<bool>)
    requires |data| == 4 * (w * h)
    ensures |isBg| == w * h
    ensures forall p :: 0 <= p < w * h ==> (isBg[p] <==> Near(PixelLab(data, p, m), bg, t))
  {
    seq(w * h, p requires 0 <= p < w * h => Near(PixelLab(data, p, m), bg, t))
  }

  // ---------------------------------------------------------------------------
  // Border sampling
  // ---------------------------------------------------------------------------

  /** Pixel (x, y) lies within b of some edge of the w×h image. */
  predicate OnBorder(x: int, y: int, w: int, h: int, b: int)
  {
    x < b || x >= w - b || y < b || y >= h - b
  }

  /** The cells the border scan samples before reaching pixel (x, y): those of the
      rows above y, then those of row y left of x, in scan order. */
  function Scan(w: nat, h: nat, b: int, y: nat, x: nat): (r: seq<nat>)
    requires y <= h && x <= w && (y == h ==> x == 0)
    ensures forall k :: 0 <= k < |r| ==> r[k] < Idx(x, y, w)
    decreases y, x
  {
    if x > 0 then
      var cell := Idx(x - 1, y, w);
      assert 0 <= y * w && 0 <= cell < Idx(x, y, w);
      Scan(w, h, b, y, x - 1) + (if OnBorder(x - 1, y, w, h, b) then [cell] else [])
    else if y > 0 then
      NextRow(0, y - 1, w);
      Scan(w, h, b, y - 1, w)
    else []
  }

  /** The whole scan: the cells of the image's border pixels, in row-major order. */
  function BorderCells(w: nat, h: nat, b: int): (r: seq<nat>)
    ensures forall k :: 0 <= k < |r| ==> r[k] < w * h
  {
    Scan(w, h, b, h, 0)
  }

  /** An in-image pixel is sampled before (x, y) exactly when it is on the border and
      comes earlier in scan order. */
  lemma {:induction false} ScanMember(w: nat, h: nat, b: int, y: nat, x: nat, x': int, y': int)
    requires y <= h && x <= w && (y == h ==> x == 0) && InGrid(x', y', w, h)
    ensures Idx(x', y', w) in Scan(w, h, b, y, x) <==> OnBorder(x', y', w, h, b) && (y' < y || (y' == y && x' < x))
    decreases y, x
  {
    if x > 0 {
      ScanMember(w, h, b, y, x - 1, x', y');
      IdxCoords(x', y', w, h);
      IdxCoords(x - 1, y, w, h);
    } else if y > 0 {
      ScanMember(w, h, b, y - 1, w, x', y');
    }
  }

  /** The scan visits cells in strictly increasing order, so no pixel is sampled twice. */
  lemma {:induction false} ScanIncreasing(w: nat, h: nat, b: int, y: nat, x: nat)
    requires y <= h && x <= w && (y == h ==> x == 0)
    ensures forall i, j :: 0 <= i < j < |Scan(w, h, b, y, x)| ==> Scan(w, h, b, y, x)[i] < Scan(w, h, b, y, x)[j]
    decreases y, x
  {
    if x > 0 {
      ScanIncreasing(w, h, b, y, x - 1);
    } else if y > 0 {
      ScanIncreasing(w, h, b, y - 1, w);
    }
  }

  /** The border sample: a pixel of the image is sampled exactly when it lies within b
      of an edge, each sampled cell is a pixel of the image, and none comes twice. */
  lemma BorderCellsSpec(w: nat, h: nat, b: int)
    ensures forall x, y :: InGrid(x, y, w, h) ==> (Idx(x, y, w) in BorderCells(w, h, b) <==> OnBorder(x, y, w, h, b))
    ensures forall k :: 0 <= k < |BorderCells(w, h, b)| ==> BorderCells(w, h, b)[k] < w * h
    ensures forall i, j :: 0 <= i < j < |BorderCells(w, h, b)| ==> BorderCells(w, h, b)[i] < BorderCells(w, h, b)[j]
  {
    forall x, y | InGrid(x, y, w, h)
      ensures Idx(x, y, w) in BorderCells(w, h, b) <==> OnBorder(x, y, w, h, b)
    {
      ScanMember(w, h, b, h, 0, x, y);
    }
    ScanIncreasing(w, h, b, h, 0);
  }

  /** The Lab colours of the given cells, in order. */
  function Labs(data: seq<Byte>, cells: seq<nat>, m: LabMath): (r: seq<Lab>)
    requires forall k :: 0 <= k < |cells| ==> 4 * cells[k] + 2 < |data|
  {
    seq(|cells|, k requires 0 <= k < |cells| => PixelLab(data, cells[k], m))
  }

  /** One step of the scan in terms of the colours pushed. */
  lemma ScanStep(data: seq<Byte>, w: nat, h: nat, b: int, m: LabMath, y: nat, x: nat)
    requires y < h && x < w && |data| == 4 * (w * h) && Idx(w, y, w) <= w * h
    ensures 4 * Idx(x, y, w) + 2 < |data|
    ensures Labs(data, Scan(w, h, b, y, x + 1), m) ==
      Labs(data, Scan(w, h, b, y, x), m) + (if OnBorder(x, y, w, h, b) then [PixelLab(data, Idx(x, y, w), m)] else [])
  {
    if OnBorder(x, y, w, h, b) {
      LabsSnoc(data, Scan(w, h, b, y, x), Idx(x, y, w), m);
    }
  }

  lemma LabsSnoc(data: seq<Byte>, cells: seq<nat>, p: nat, m: LabMath)
    requires forall k :: 0 <= k < |cells| ==> 4 * cells[k] + 2 < |data|
    requires 4 * p + 2 < |data|
    ensures Labs(data, cells + [p], m) == Labs(data, cells, m) + [PixelLab(data, p, m)]
  {
  }

  /** The border scan: rows top to bottom, each left to right, pushing the Lab colour
      of every border pixel; the result is the colours of the border cells in order. */
  method BorderLabs(data: seq<Byte>, w: nat, h: nat, b: int, m: LabMath) returns (labs: seq<Lab>)
    requires |data| == 4 * (w * h)
    ensures labs == Labs(data, BorderCells(w, h, b), m)
  {
    labs := [];
    var y := 0;
    while y < h
      invariant 0 <= y <= h && Idx(0, y, w) <= w * h
      invariant labs == Labs(data, Scan(w, h, b, y, 0), m)
    {
      NextRow(0, y, w);
      MulMonotone(w, y + 1, h);
      labs := BorderRow(data, w, h, b, m, y, labs);
      y := y + 1;
    }
  }

  /** One row of the border scan. */
  method BorderRow(data: seq<Byte>, w: nat, h: nat, b: int, m: LabMath, y: nat, labs0: seq<Lab>)
    returns (labs: seq<Lab>)
    requires y < h && |data| == 4 * (w * h) && Idx(w, y, w) <= w * h
    requires labs0 == Labs(data, Scan(w, h, b, y, 0), m)
    ensures labs == Labs(data, Scan(w, h, b, y + 1, 0), m)
  {
    labs := labs0;
    var x := 0;
    while x < w
      invariant 0 <= x <= w
      invariant labs == Labs(data, Scan(w, h, b, y, x), m)
    {
      ScanStep(data, w, h, b, m, y, x);
      if OnBorder(x, y, w, h, b) {
        labs := labs + [PixelLab(data, y * w + x, m)];
      }
      x := x + 1;
    }
  }

  // ---------------------------------------------------------------------------
  // Sorting and the median
  // ---------------------------------------------------------------------------

  predicate Sorted(s: seq<real>)
  {
    forall i, j :: 0 <= i < j < |s| ==> s[i] <= s[j]
  }

  /** x placed before the first element of s that is not smaller. */
  function Insert(x: real, s: seq<real>): (r: seq<real>)
    ensures multiset(r) == multiset(s) + multiset{x}
  {
    if s == [] || x <= s[0] then [x] + s
    else assert s == [s[0]] + s[1..]; [s[0]] + Insert(x, s[1..])
  }

  lemma {:induction false} InsertSorted(x: real, s: seq<real>)
    requires Sorted(s)
    ensures Sorted(Insert(x, s))
  {
    if s != [] && !(x <= s[0]) {
      InsertSorted(x, s[1..]);
      var r := Insert(x, s[1..]);
      forall k | 0 <= k < |r| ensures s[0] <= r[k] {
        assert r[k] in multiset(r);
        assert r[k] in multiset(s[1..]) + multiset{x};
        if r[k] in multiset(s[1..]) {
          var i :| 0 <= i < |s[1..]| && s[1..][i] == r[k];
          assert s[i + 1] == r[k];
        }
      }
    }
  }

  /** `Array.prototype.sort((a, b) => a - b)` on numbers: the values in ascending order. */
  function Sort(s: seq<real>): (r: seq<real>)
    ensures multiset(r) == multiset(s) && |r| == |s|
  {
    if s == [] then []
    else assert s == [s[0]] + s[1..]; Insert(s[0], Sort(s[1..]))
  }

  lemma {:induction false} SortSorted(s: seq<real>)
    ensures Sorted(Sort(s))
  {
    if s != [] {
      SortSorted(s[1..]);
      InsertSorted(s[0], Sort(s[1..]));
    }
  }

  /** Two sorted sequences holding the same values are the same sequence. */
  lemma {:induction false} SortedUnique(a: seq<real>, b: seq<real>)
    requires Sorted(a) && Sorted(b) && multiset(a) == multiset(b)
    ensures a == b
  {
    assert |a| == |b| by { assert |multiset(a)| == |multiset(b)|; }
    if a != [] {
      SameFirst(a, b);
      SameTails(a, b);
      SortedUnique(a[1..], b[1..]);
      assert a == [a[0]] + a[1..];
      assert b == [b[0]] + b[1..];
    }
  }

  lemma SameFirst(a: seq<real>, b: seq<real>)
    requires Sorted(a) && Sorted(b) && multiset(a) == multiset(b) && a != [] && b != []
    ensures a[0] == b[0]
  {
    assert b[0] in multiset(b) && a[0] in multiset(a);
    SortedFirst(a, b[0]);
    SortedFirst(b, a[0]);
  }

  lemma SameTails(a: seq<real>, b: seq<real>)
    requires Sorted(a) && Sorted(b) && multiset(a) == multiset(b) && a != [] && b != [] && a[0] == b[0]
    ensures Sorted(a[1..]) && Sorted(b[1..]) && multiset(a[1..]) == multiset(b[1..])
  {
    DropFirst(a);
    DropFirst(b);
  }

  /** The first element of a sorted sequence is its least value. */
  lemma SortedFirst(s: seq<real>, x: real)
    requires Sorted(s) && x in multiset(s)
    ensures s[0] <= x
  {
    var i :| 0 <= i < |s| && s[i] == x;
  }

  lemma DropFirst<T>(s: seq<T>)
    requires s != []
    ensures multiset(s[1..]) == multiset(s) - multiset{s[0]}
  {
    assert s == [s[0]] + s[1..];
  }

  /** The median of a non-empty ascending sequence: its middle element, or the mean of
      its two middle elements when the length is even. */
  function Middle(s: seq<real>): real
    requires |s| > 0
  {
    var m := |s| / 2;
    if |s| % 2 == 1 then s[m] else 0.5 * (s[m - 1] + s[m])
  }

  /** `medianComponent` on the values of one component. */
  function Median(vals: seq<real>): real
    requires |vals| > 0
  {
    Middle(Sort(vals))
  }

  /** The median depends only on the values, not on the order they were sampled in. */
  lemma MedianPermutation(a: seq<real>, b: seq<real>)
    requires |a| > 0 && multiset(a) == multiset(b)
    ensures |b| > 0 && Median(a) == Median(b)
  {
    assert |multiset(a)| == |multiset(b)|;
    SortSorted(a);
    SortSorted(b);
    SortedUnique(Sort(a), Sort(b));
  }

  /** The median lies within any bounds that hold for all the values. */
  lemma MedianBounds(vals: seq<real>, lo: real, hi: real)
    requires |vals| > 0 && forall i :: 0 <= i < |vals| ==> lo <= vals[i] <= hi
    ensures lo <= Median(vals) <= hi
  {
    var s := Sort(vals);
    forall k | 0 <= k < |s| ensures lo <= s[k] <= hi {
      assert s[k] in multiset(vals);
      var i :| 0 <= i < |vals| && vals[i] == s[k];
    }
  }

  /** With an odd number of samples the median is one of them. */
  lemma MedianSampled(vals: seq<real>)
    requires |vals| % 2 == 1
    ensures Median(vals) in vals
  {
    var s := Sort(vals);
    assert s[|s| / 2] in multiset(vals);
  }

  /** The median splits the samples: for sorted s, at least half lie at or below it
      and at least half at or above it. */
  lemma MiddleSplits(s: seq<real>)
    requires |s| > 0 && Sorted(s)
    ensures forall k :: 0 <= k < (|s| + 1) / 2 ==> s[k] <= Middle(s)
    ensures forall k :: |s| / 2 <= k < |s| ==> Middle(s) <= s[k]
  {
  }

  // ---------------------------------------------------------------------------
  // The background colour
  // ---------------------------------------------------------------------------

  /** Component `comp` (0 = L, 1 = a, 2 = b) of a Lab colour, as `lab[comp]`. */
  function Component(lab: Lab, comp: nat): real
    requires comp < 3
  {
    if comp == 0 then lab.l else if comp == 1 then lab.a else lab.b
  }

  /** `arr.map(v => v[comp])`. */
  function Column(labs: seq<Lab>, comp: nat): (r: seq<real>)
    requires comp < 3
    ensures |r| == |labs| && forall k :: 0 <= k < |labs| ==> r[k] == Component(labs[k], comp)
  {
    seq(|labs|, k requires 0 <= k < |labs| => Component(labs[k], comp))
  }

  /** `bgLab`: the component-wise median of the border samples, or the Lab colour of
      white when there are none. */
  function BackgroundLab(labs: seq<Lab>, m: LabMath): Lab
  {
    if |labs| > 0 then Lab(Median(Column(labs, 0)), Median(Column(labs, 1)), Median(Column(labs, 2)))
    else m.toLab(255, 255, 255)
  }

  /** A border of one uniform colour gives that colour as the background. */
  lemma UniformBorder(labs: seq<Lab>, c: Lab, m: LabMath)
    requires |labs| > 0 && forall k :: 0 <= k < |labs| ==> labs[k] == c
    ensures BackgroundLab(labs, m) == c
  {
    ColumnConstant(labs, 0, c);
    ColumnConstant(labs, 1, c);
    ColumnConstant(labs, 2, c);
  }

  lemma ColumnConstant(labs: seq<Lab>, comp: nat, c: Lab)
    requires comp < 3 && |labs| > 0 && forall k :: 0 <= k < |labs| ==> labs[k] == c
    ensures Median(Column(labs, comp)) == Component(c, comp)
  {
    MedianBounds(Column(labs, comp), Component(c, comp), Component(c, comp));
  }

  /** Each component of the background colour lies between the smallest and largest
      value of that component along the border. */
  lemma BackgroundWithinBorder(labs: seq<Lab>, lo: Lab, hi: Lab, m: LabMath)
    requires |labs| > 0
    requires forall k :: 0 <= k < |labs| ==> lo.l <= labs[k].l <= hi.l && lo.a <= labs[k].a <= hi.a && lo.b <= labs[k].b <= hi.b
    ensures var bg := BackgroundLab(labs, m);
      lo.l <= bg.l <= hi.l && lo.a <= bg.a <= hi.a && lo.b <= bg.b <= hi.b
  {
    MedianBounds(Column(labs, 0), lo.l, hi.l);
    MedianBounds(Column(labs, 1), lo.a, hi.a);
    MedianBounds(Column(labs, 2), lo.b, hi.b);
  }

  /** The background colour does not depend on the order of the border samples. */
  lemma BackgroundOrderFree(labs: seq<Lab>, labs': seq<Lab>, m: LabMath)
    requires multiset(labs) == multiset(labs')
    ensures BackgroundLab(labs, m) == BackgroundLab(labs', m)
  {
    assert |multiset(labs)| == |multiset(labs')|;
    if |labs| > 0 {
      ColumnPermute(labs, labs', 0);
      ColumnPermute(labs, labs', 1);
      ColumnPermute(labs, labs', 2);
      MedianPermutation(Column(labs, 0), Column(labs', 0));
      MedianPermutation(Column(labs, 1), Column(labs', 1));
      MedianPermutation(Column(labs, 2), Column(labs', 2));
    }
  }

  /** Taking out element j leaves the others. */
  lemma RemoveAt<T>(s: seq<T>, j: nat)
    requires j < |s|
    ensures s == s[..j] + [s[j]] + s[j + 1..]
    ensures multiset(s[..j] + s[j + 1..]) == multiset(s) - multiset{s[j]}
  {
    assert s == s[..j] + [s[j]] + s[j + 1..];
  }

  lemma ColumnAppend(a: seq<Lab>, b: seq<Lab>, comp: nat)
    requires comp < 3
    ensures Column(a + b, comp) == Column(a, comp) + Column(b, comp)
  {
  }

  /** Reordering the samples reorders each column the same way. */
  lemma {:induction false} ColumnPermute(labs: seq<Lab>, labs': seq<Lab>, comp: nat)
    requires comp < 3 && multiset(labs) == multiset(labs')
    ensures multiset(Column(labs, comp)) == multiset(Column(labs', comp))
  {
    if labs != [] {
      var n := |labs|;
      var j := Matching(labs, labs');
      ColumnPermute(labs[..n - 1], labs'[..j] + labs'[j + 1..], comp);
      assert labs[..n - 1] + labs[n..] == labs[..n - 1];
      ColumnRemove(labs, n - 1, comp);
      ColumnRemove(labs', j, comp);
    }
  }

  /** Where the last sample of labs sits in a reordering labs', and what is left on
      both sides once it is taken out. */
  lemma Matching(labs: seq<Lab>, labs': seq<Lab>) returns (j: nat)
    requires labs != [] && multiset(labs) == multiset(labs')
    ensures j < |labs'| && labs'[j] == labs[|labs| - 1]
    ensures multiset(labs[..|labs| - 1]) == multiset(labs'[..j] + labs'[j + 1..])
  {
    var n := |labs|;
    var x := labs[n - 1];
    assert labs == labs[..n - 1] + [x];
    assert x in multiset(labs');
    j :| 0 <= j < |labs'| && labs'[j] == x;
    RemoveAt(labs', j);
  }

  /** The column of s is the column of s without element j, plus that element's
      component. */
  lemma ColumnRemove(s: seq<Lab>, j: nat, comp: nat)
    requires comp < 3 && j < |s|
    ensures multiset(Column(s, comp)) ==
      multiset(Column(s[..j] + s[j + 1..], comp)) + multiset{Component(s[j], comp)}
  {
    var a, b := s[..j], s[j + 1..];
    assert s == a + [s[j]] + b;
    ColumnAppend(a + [s[j]], b, comp);
    ColumnAppend(a, [s[j]], comp);
    ColumnAppend(a, b, comp);
  }
}
