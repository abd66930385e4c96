/**
 * Step 2 of the background remover (js/bgremove.js): the edge-seeded flood fill over
 * the `mask` and `visited` byte arrays with the `qx`/`qy` queue, and the sweep that
 * classifies the pixels the fill never reached.
 *
 * The colour test `ΔE76(lab(p), bgLab) <= threshold` is taken as given, one boolean
 * per pixel (`isBg`); BgRemove computes it from the image.
 *
 * The source's seeding (`attemptSeed`) does not look at `visited`, so a pixel covered
 * by two seeding loops is queued twice and the queue, sized `w * h`, can overrun.
 * `SeededAsWritten` models that seeding and `UniformSeedsOverrun` exhibits the
 * overrun; the `FloodFill` class models the fill with a seeding that skips visited
 * pixels, for which every pixel enters the queue at most once.
 */
module BgFill {
  import opened Js
  import opened Sets
  import opened BgGrid

  const BG := 0
  const FG := 255

  /** What the colour test alone says of cell p: 0 (background) or 255. */
  function Classified(isBg: seq<bool>, p: int): int
    requires 0 <= p < |isBg|
  {
    if isBg[p] then BG else FG
  }

  /** The mask the per-pixel colour test gives. */
  function Threshold(isBg: seq<bool>): (r: seq<int>)
    ensures |r| == |isBg|
  {
    seq(|isBg|, p requires 0 <= p < |isBg| => Classified(isBg, p))
  }

  /** The four neighbour offsets `nbs`, in the source's order. */
  const Nbs: seq<(int, int)> := [(1, 0), (-1, 0), (0, 1), (0, -1)]

  // ---------------------------------------------------------------------------
  // The seeding loops as written
  // ---------------------------------------------------------------------------

  /** lo, lo + 1, ..., hi - 1. */
  function Range(lo: int, hi: int): (r: seq<int>)
    ensures |r| == Max(hi - lo, 0)
    ensures forall i :: 0 <= i < |r| ==> r[i] == lo + i
    decreases hi - lo
  {
    if lo >= hi then [] else [lo] + Range(lo + 1, hi)
  }

  /** (x, y) for every x in xs. */
  function AtRow(xs: seq<int>, y: int): (r: seq<(int, int)>)
    ensures |r| == |xs| && forall i :: 0 <= i < |r| ==> r[i] == (xs[i], y)
  {
    seq(|xs|, i requires 0 <= i < |xs| => (xs[i], y))
  }

  /** (x, y) for every y in ys. */
  function AtColumn(x: int, ys: seq<int>): (r: seq<(int, int)>)
    ensures |r| == |ys| && forall i :: 0 <= i < |r| ==> r[i] == (x, ys[i])
  {
    seq(|ys|, i requires 0 <= i < |ys| => (x, ys[i]))
  }

  /** The first seeding loop, over rows 0 .. n-1: the left `b` and the right `b`
      columns of each row. */
  function SideAttempts(w: int, h: int, b: int, n: nat): seq<(int, int)>
  {
    if n == 0 then []
    else SideAttempts(w, h, b, n - 1) + AtRow(Range(0, b), n - 1) + AtRow(Range(w - b, w), n - 1)
  }

  /** The second seeding loop, over columns 0 .. n-1: the top `b` and the bottom `b`
      rows of each column. */
  function EdgeAttempts(w: int, h: int, b: int, n: nat): seq<(int, int)>
  {
    if n == 0 then []
    else EdgeAttempts(w, h, b, n - 1) + AtColumn(n - 1, Range(0, b)) + AtColumn(n - 1, Range(h - b, h))
  }

  /** Every `attemptSeed(x, y)` call, in order. */
  function Attempts(w: nat, h: nat, b: int): seq<(int, int)>
  {
    SideAttempts(w, h, b, h) + EdgeAttempts(w, h, b, w)
  }

  /** Whether `attemptSeed(x, y)` seeds: cell `y * w + x` exists (outside the image
      the pixel bytes are `undefined` and the distance is NaN) and passes the test. */
  predicate Seeds(isBg: seq<bool>, w: int, c: (int, int))
  {
    0 <= Idx(c.0, c.1, w) < |isBg| && isBg[Idx(c.0, c.1, w)]
  }

  /** The coordinates the source's seeding enqueues from a list of attempts: every
      attempt that passes the test, whether or not its pixel was already seeded. */
  function SeededAsWritten(isBg: seq<bool>, w: int, cs: seq<(int, int)>): (r: seq<(int, int)>)
    ensures |r| <= |cs|
  {
    if cs == [] then []
    else (if Seeds(isBg, w, cs[0]) then [cs[0]] else []) + SeededAsWritten(isBg, w, cs[1..])
  }

  /** When every attempt seeds, the as-written seeding enqueues all of them. */
  lemma {:induction false} SeededAll(isBg: seq<bool>, w: int, cs: seq<(int, int)>)
    requires forall i :: 0 <= i < |cs| ==> Seeds(isBg, w, cs[i])
    ensures SeededAsWritten(isBg, w, cs) == cs
  {
    if cs != [] {
      SeededAll(isBg, w, cs[1..]);
    }
  }

  lemma {:induction false} SideAttemptsSpec(w: int, h: int, b: nat, n: nat)
    requires b <= w
    ensures |SideAttempts(w, h, b, n)| == 2 * b * n
    ensures forall i :: 0 <= i < |SideAttempts(w, h, b, n)| ==>
      InGrid(SideAttempts(w, h, b, n)[i].0, SideAttempts(w, h, b, n)[i].1, w, n)
  {
    if n > 0 {
      SideAttemptsSpec(w, h, b, n - 1);
    }
  }

  lemma {:induction false} EdgeAttemptsSpec(w: int, h: int, b: nat, n: nat)
    requires b <= h
    ensures |EdgeAttempts(w, h, b, n)| == 2 * b * n
    ensures forall i :: 0 <= i < |EdgeAttempts(w, h, b, n)| ==>
      InGrid(EdgeAttempts(w, h, b, n)[i].0, EdgeAttempts(w, h, b, n)[i].1, n, h)
  {
    if n > 0 {
      EdgeAttemptsSpec(w, h, b, n - 1);
    }
  }

  /** With a border no wider than the image, every attempt is an in-image pixel, and
      there are `2 * b` per row and `2 * b` per column. */
  lemma AttemptsSpec(w: nat, h: nat, b: nat)
    requires b <= w && b <= h
    ensures |Attempts(w, h, b)| == 2 * b * h + 2 * b * w
    ensures forall i :: 0 <= i < |Attempts(w, h, b)| ==> InGrid(Attempts(w, h, b)[i].0, Attempts(w, h, b)[i].1, w, h)
  {
    var side, edge := SideAttempts(w, h, b, h), EdgeAttempts(w, h, b, w);
    SideAttemptsSpec(w, h, b, h);
    EdgeAttemptsSpec(w, h, b, w);
    var cs: seq<(int, int)> := side + edge;
    forall i | 0 <= i < |cs| ensures InGrid(cs[i].0, cs[i].1, w, h) {
      if i >= |side| {
        assert cs[i] == edge[i - |side|];
      }
    }
  }

  /** On an image whose every pixel passes the test, with a border no wider than the
      image, the as-written seeding enqueues `2 * b * (w + h)` coordinates: the pixels
      of the four `b × b` corners twice each. */
  lemma UniformSeedCount(isBg: seq<bool>, w: nat, h: nat, b: nat)
    requires |isBg| == w * h && forall p :: 0 <= p < |isBg| ==> isBg[p]
    requires b <= w && b <= h
    ensures |SeededAsWritten(isBg, w, Attempts(w, h, b))| == 2 * b * (w + h)
  {
    AttemptsSeed(isBg, w, h, b);
    SeededAll(isBg, w, Attempts(w, h, b));
    AttemptsSpec(w, h, b);
  }

  lemma AttemptsSeed(isBg: seq<bool>, w: nat, h: nat, b: nat)
    requires |isBg| == w * h && forall p :: 0 <= p < |isBg| ==> isBg[p]
    requires b <= w && b <= h
    ensures forall i :: 0 <= i < |Attempts(w, h, b)| ==> Seeds(isBg, w, Attempts(w, h, b)[i])
  {
    var cs := Attempts(w, h, b);
    AttemptsSpec(w, h, b);
    forall i | 0 <= i < |cs| ensures Seeds(isBg, w, cs[i]) {
      IdxCoords(cs[i].0, cs[i].1, w, h);
    }
  }

  /** The overrun: for a uniform `2b × 2b` image the seeding alone queues twice as many
      coordinates as the queues have slots (an 8×8 image with the default border of 4
      already does). */
  lemma UniformSeedsOverrun(isBg: seq<bool>, b: nat)
    requires b >= 1 && |isBg| == (2 * b) * (2 * b) && forall p :: 0 <= p < |isBg| ==> isBg[p]
    ensures |SeededAsWritten(isBg, 2 * b, Attempts(2 * b, 2 * b, b))| == 2 * |isBg| > |isBg|
  {
    UniformSeedCount(isBg, 2 * b, 2 * b, b);
    SquareSides(b);
  }

  /** Arithmetic for the overrun: `2b(2b + 2b) == 2 (2b)²`, and `(2b)² > 0`. */
  lemma SquareSides(b: nat)
    requires b >= 1
    ensures 2 * b * (2 * b + 2 * b) == 2 * ((2 * b) * (2 * b)) && (2 * b) * (2 * b) > 0
  {
    MulMonotone(2 * b, 1, 2 * b);
  }

  /** The number of entries of s equal to an earlier entry: the queue slots spent on
      pixels that are already queued. */
  function Repeats(s: seq<(int, int)>): (n: nat)
    ensures n <= |s|
  {
    if s == [] then 0
    else Repeats(s[..|s| - 1]) + (if s[|s| - 1] in s[..|s| - 1] then 1 else 0)
  }

  /** For any image and any border no wider than it, the as-written seeding queues at
      most `2 * b * (w + h)` coordinates, one per `attemptSeed` call. */
  lemma SeedCountBound(isBg: seq<bool>, w: nat, h: nat, b: nat)
    requires b <= w && b <= h
    ensures |SeededAsWritten(isBg, w, Attempts(w, h, b))| <= 2 * b * (w + h)
  {
    AttemptsSpec(w, h, b);
  }

  /** For any image and a border at most half its width and height, the attempts
      repeat exactly the `4 * b * b` corner pixels, and the as-written seeding queues
      at most that many pixels a second time: the queues need up to `4 * b * b` slots
      beyond `w * h`. */
  lemma SeedRepeats(isBg: seq<bool>, w: nat, h: nat, b: nat)
    requires 2 * b <= w && 2 * b <= h
    ensures Repeats(Attempts(w, h, b)) == (2 * b) * (2 * b)
    ensures Repeats(SeededAsWritten(isBg, w, Attempts(w, h, b))) <= (2 * b) * (2 * b)
  {
    EdgeRepeats(w, h, b, w);
    BandAttemptsCount(w, b, w);
    var k := if w <= b then w else if w <= w - b then b else b + w - (w - b);
    assert k == 2 * b;
    assert BandAttempts(w, b, w) == 2 * b * k;
    FilterRepeats(isBg, w, Attempts(w, h, b));
  }

  /** Dropping the attempts that do not seed never adds a repeat. */
  lemma {:induction false} FilterRepeats(isBg: seq<bool>, w: int, cs: seq<(int, int)>)
    ensures Repeats(SeededAsWritten(isBg, w, cs)) <= Repeats(cs)
    decreases |cs|
  {
    if cs != [] {
      var init, c := cs[..|cs| - 1], cs[|cs| - 1];
      assert cs == init + [c];
      SeededAppend(isBg, w, init, [c]);
      FilterRepeats(isBg, w, init);
      SeededMember(isBg, w, init, c);
      var t := SeededAsWritten(isBg, w, init);
      if Seeds(isBg, w, c) {
        assert SeededAsWritten(isBg, w, cs) == t + [c];
        assert (t + [c])[..|t|] == t;
      } else {
        assert SeededAsWritten(isBg, w, cs) == t;
      }
    }
  }

  lemma {:induction false} SeededAppend(isBg: seq<bool>, w: int, a: seq<(int, int)>, b: seq<(int, int)>)
    ensures SeededAsWritten(isBg, w, a + b) == SeededAsWritten(isBg, w, a) + SeededAsWritten(isBg, w, b)
    decreases |a|
  {
    if a != [] {
      assert (a + b)[1..] == a[1..] + b;
      SeededAppend(isBg, w, a[1..], b);
    } else {
      assert a + b == b;
    }
  }

  lemma {:induction false} SeededMember(isBg: seq<bool>, w: int, cs: seq<(int, int)>, c: (int, int))
    ensures c in SeededAsWritten(isBg, w, cs) <==> c in cs && Seeds(isBg, w, c)
    decreases |cs|
  {
    if cs != [] {
      SeededMember(isBg, w, cs[1..], c);
      assert cs == [cs[0]] + cs[1..];
    }
  }

  /** One more entry adds a repeat exactly when it is already present. */
  lemma RepeatsSnoc(s: seq<(int, int)>, c: (int, int))
    ensures Repeats(s + [c]) == Repeats(s) + (if c in s then 1 else 0)
  {
    assert (s + [c])[..|s|] == s;
  }

  /** Appending entries that are new and pairwise distinct adds no repeat. */
  lemma {:induction false} RepeatsFresh(s: seq<(int, int)>, t: seq<(int, int)>)
    requires forall i, j :: 0 <= i < j < |t| ==> t[i] != t[j]
    requires forall c :: c in t ==> c !in s
    ensures Repeats(s + t) == Repeats(s)
    decreases |t|
  {
    if t == [] {
      assert s + t == s;
    } else {
      var t0, c := t[..|t| - 1], t[|t| - 1];
      assert t == t0 + [c] && s + t == (s + t0) + [c];
      RepeatsFresh(s, t0);
      RepeatsSnoc(s + t0, c);
      assert c !in t0;
    }
  }

  /** Appending entries that are all already present adds one repeat each. */
  lemma {:induction false} RepeatsOld(s: seq<(int, int)>, t: seq<(int, int)>)
    requires forall c :: c in t ==> c in s
    ensures Repeats(s + t) == Repeats(s) + |t|
    decreases |t|
  {
    if t == [] {
      assert s + t == s;
    } else {
      var t0, c := t[..|t| - 1], t[|t| - 1];
      assert t == t0 + [c] && s + t == (s + t0) + [c];
      RepeatsOld(s, t0);
      RepeatsSnoc(s + t0, c);
    }
  }

  /** What is in neither s nor l is not in s + l. */
  lemma FreshOfBoth(s: seq<(int, int)>, l: seq<(int, int)>, r: seq<(int, int)>)
    requires forall c :: c in r ==> c !in s && c !in l
    ensures forall c :: c in r ==> c !in s + l
  {
  }

  /** One more line of a two-band loop: a pixel is attempted after n lines exactly when
      it was after n - 1 lines or lies in line n - 1 in one of the two bands. `i` is the
      pixel's line and `j` its position along the line. */
  lemma BandsStep(s: seq<(int, int)>, t: seq<(int, int)>, u: seq<(int, int)>, c: (int, int),
                  i: int, j: int, n: int, b: int, size: int)
    requires 1 <= n
    requires c in s <==> 0 <= i < n - 1 && (0 <= j < b || size - b <= j < size)
    requires c in t <==> i == n - 1 && 0 <= j < b
    requires c in u <==> i == n - 1 && size - b <= j < size
    ensures c in s + t + u <==> 0 <= i < n && (0 <= j < b || size - b <= j < size)
  {
  }

  /** The attempts of one row band are pairwise distinct. */
  lemma RowDistinct(lo: int, hi: int, y: int)
    ensures var r := AtRow(Range(lo, hi), y); forall i, j :: 0 <= i < j < |r| ==> r[i] != r[j]
  {
  }

  /** The attempts of one column band are pairwise distinct. */
  lemma ColumnDistinct(x: int, lo: int, hi: int)
    ensures var r := AtColumn(x, Range(lo, hi)); forall i, j :: 0 <= i < j < |r| ==> r[i] != r[j]
  {
  }

  /** The attempts of one row band. */
  lemma RowMember(lo: int, hi: int, y: int, c: (int, int))
    ensures c in AtRow(Range(lo, hi), y) <==> c.1 == y && lo <= c.0 < hi
  {
    var r := AtRow(Range(lo, hi), y);
    if c.1 == y && lo <= c.0 < hi {
      assert r[c.0 - lo] == c;
    }
  }

  /** The attempts of one column band. */
  lemma ColumnMember(x: int, lo: int, hi: int, c: (int, int))
    ensures c in AtColumn(x, Range(lo, hi)) <==> c.0 == x && lo <= c.1 < hi
  {
    var r := AtColumn(x, Range(lo, hi));
    if c.0 == x && lo <= c.1 < hi {
      assert r[c.1 - lo] == c;
    }
  }

  /** (x, y) is attempted by the first loop's first n rows exactly when it lies in one
      of the first n rows and in the left or the right band. */
  lemma {:induction false} SideMember(w: int, h: int, b: nat, n: nat, c: (int, int))
    ensures c in SideAttempts(w, h, b, n) <==> 0 <= c.1 < n && (0 <= c.0 < b || w - b <= c.0 < w)
  {
    if n > 0 {
      var s, l, r := SideAttempts(w, h, b, n - 1), AtRow(Range(0, b), n - 1), AtRow(Range(w - b, w), n - 1);
      var x, y := c.0, c.1;
      SideMember(w, h, b, n - 1, c);
      RowMember(0, b, n - 1, c);
      RowMember(w - b, w, n - 1, c);
      BandsStep(s, l, r, c, y, x, n, b, w);
      assert SideAttempts(w, h, b, n) == s + l + r;
    }
  }

  /** (x, y) is attempted by the second loop's first n columns exactly when it lies in
      one of the first n columns and in the top or the bottom band. */
  lemma {:induction false} EdgeMember(w: int, h: int, b: nat, n: nat, c: (int, int))
    ensures c in EdgeAttempts(w, h, b, n) <==> 0 <= c.0 < n && (0 <= c.1 < b || h - b <= c.1 < h)
  {
    if n > 0 {
      var s, t, u := EdgeAttempts(w, h, b, n - 1), AtColumn(n - 1, Range(0, b)), AtColumn(n - 1, Range(h - b, h));
      var x, y := c.0, c.1;
      EdgeMember(w, h, b, n - 1, c);
      ColumnMember(n - 1, 0, b, c);
      ColumnMember(n - 1, h - b, h, c);
      BandsStep(s, t, u, c, x, y, n, b, h);
      assert EdgeAttempts(w, h, b, n) == s + t + u;
    }
  }

  /** The first loop attempts no pixel twice when the two bands do not overlap. */
  lemma {:induction false} SideRepeats(w: int, h: int, b: nat, n: nat)
    requires 2 * b <= w
    ensures Repeats(SideAttempts(w, h, b, n)) == 0
  {
    if n > 0 {
      SideRepeats(w, h, b, n - 1);
      var s := SideAttempts(w, h, b, n - 1);
      var l, r := AtRow(Range(0, b), n - 1), AtRow(Range(w - b, w), n - 1);
      LeftRowFresh(w, h, b, n);
      RightRowFresh(w, h, b, n);
      assert SideAttempts(w, h, b, n) == s + l + r;
    }
  }

  /** The left band of row n - 1 adds no repeat to the earlier rows. */
  lemma LeftRowFresh(w: int, h: int, b: nat, n: nat)
    requires 2 * b <= w && n >= 1
    ensures var s := SideAttempts(w, h, b, n - 1);
      Repeats(s + AtRow(Range(0, b), n - 1)) == Repeats(s)
  {
    var s, l := SideAttempts(w, h, b, n - 1), AtRow(Range(0, b), n - 1);
    forall c | c in l ensures c !in s {
      SideRowNew(w, h, b, n, c);
    }
    RowDistinct(0, b, n - 1);
    RepeatsFresh(s, l);
  }

  /** The right band of row n - 1 adds no repeat to the earlier rows and the left band. */
  lemma RightRowFresh(w: int, h: int, b: nat, n: nat)
    requires 2 * b <= w && n >= 1
    ensures var s, l := SideAttempts(w, h, b, n - 1), AtRow(Range(0, b), n - 1);
      Repeats(s + l + AtRow(Range(w - b, w), n - 1)) == Repeats(s + l)
  {
    var s, l, r := SideAttempts(w, h, b, n - 1), AtRow(Range(0, b), n - 1), AtRow(Range(w - b, w), n - 1);
    forall c | c in r ensures c !in s && c !in l {
      SideRowNew(w, h, b, n, c);
    }
    FreshOfBoth(s, l, r);
    RowDistinct(w - b, w, n - 1);
    RepeatsFresh(s + l, r);
  }

  /** Row n - 1 of the first loop attempts pixels the earlier rows did not, and its
      two bands are apart. */
  lemma SideRowNew(w: int, h: int, b: nat, n: nat, c: (int, int))
    requires 2 * b <= w && n >= 1
    ensures c in AtRow(Range(0, b), n - 1) ==> c !in SideAttempts(w, h, b, n - 1)
    ensures c in AtRow(Range(w - b, w), n - 1) ==>
      c !in SideAttempts(w, h, b, n - 1) && c !in AtRow(Range(0, b), n - 1)
  {
    RowMember(0, b, n - 1, c);
    RowMember(w - b, w, n - 1, c);
    SideMember(w, h, b, n - 1, c);
  }

  /** After the first n columns of the second loop, the repeats are the `2 * b`
      attempts of each of those columns that lies in the left or the right band. */
  lemma {:induction false} EdgeRepeats(w: int, h: int, b: nat, n: nat)
    requires 2 * b <= w && 2 * b <= h && n <= w
    ensures Repeats(SideAttempts(w, h, b, h) + EdgeAttempts(w, h, b, n)) == BandAttempts(w, b, n)
  {
    if n == 0 {
      var side := SideAttempts(w, h, b, h);
      SideRepeats(w, h, b, h);
      assert side + [] == side;
    } else {
      EdgeRepeats(w, h, b, n - 1);
      EdgeStep(w, h, b, n);
    }
  }

  /** One column of the second loop adds `2 * b` repeats in a band, none between. */
  lemma EdgeStep(w: int, h: int, b: nat, n: nat)
    requires 2 * b <= w && 2 * b <= h && 1 <= n <= w
    requires Repeats(SideAttempts(w, h, b, h) + EdgeAttempts(w, h, b, n - 1)) == BandAttempts(w, b, n - 1)
    ensures Repeats(SideAttempts(w, h, b, h) + EdgeAttempts(w, h, b, n)) == BandAttempts(w, b, n)
  {
    var s := SideAttempts(w, h, b, h) + EdgeAttempts(w, h, b, n - 1);
    var t, u := AtColumn(n - 1, Range(0, b)), AtColumn(n - 1, Range(h - b, h));
    EdgeUnfold(SideAttempts(w, h, b, h), w, h, b, n);
    if n - 1 < b || w - b <= n - 1 {
      BandRepeated(w, h, b, n, s, t, u);
    } else {
      BandFresh(w, h, b, n, s, t, u);
    }
  }

  /** The attempts the first n columns of the second loop make in the left or the
      right band: `2 * b` for each such column. */
  function BandAttempts(w: int, b: nat, n: nat): nat
  {
    if n == 0 then 0
    else BandAttempts(w, b, n - 1) + (if n - 1 < b || w - b <= n - 1 then 2 * b else 0)
  }

  /** Over the whole width, b columns in each band. */
  lemma {:induction false} BandAttemptsCount(w: int, b: nat, n: nat)
    requires 2 * b <= w && n <= w
    ensures BandAttempts(w, b, n) == 2 * b * (if n <= b then n else if n <= w - b then b else b + n - (w - b))
  {
    if n > 0 {
      BandAttemptsCount(w, b, n - 1);
      var k := if n - 1 <= b then n - 1 else if n - 1 <= w - b then b else b + n - 1 - (w - b);
      assert 2 * b * (k + 1) == 2 * b * k + 2 * b;
    }
  }

  /** The second loop's attempts after n columns, split off its last column. */
  lemma EdgeUnfold(side: seq<(int, int)>, w: int, h: int, b: nat, n: nat)
    requires 1 <= n
    ensures side + EdgeAttempts(w, h, b, n)
      == side + EdgeAttempts(w, h, b, n - 1) + AtColumn(n - 1, Range(0, b)) + AtColumn(n - 1, Range(h - b, h))
  {
  }

  /** A column in the left or right band: both its attempt runs were made by the first
      loop already. */
  lemma BandRepeated(w: int, h: int, b: nat, n: nat, s: seq<(int, int)>, t: seq<(int, int)>, u: seq<(int, int)>)
    requires 2 * b <= h && 1 <= n <= w && (n - 1 < b || w - b <= n - 1)
    requires s == SideAttempts(w, h, b, h) + EdgeAttempts(w, h, b, n - 1)
    requires t == AtColumn(n - 1, Range(0, b)) && u == AtColumn(n - 1, Range(h - b, h))
    ensures Repeats(s + t + u) == Repeats(s) + 2 * b
  {
    forall c | c in t ensures c in s {
      ColumnMember(n - 1, 0, b, c);
      SideMember(w, h, b, h, c);
    }
    RepeatsOld(s, t);
    forall c | c in u ensures c in s + t {
      ColumnMember(n - 1, h - b, h, c);
      SideMember(w, h, b, h, c);
    }
    RepeatsOld(s + t, u);
  }

  /** A column between the bands: its attempts are all new. */
  lemma BandFresh(w: int, h: int, b: nat, n: nat, s: seq<(int, int)>, t: seq<(int, int)>, u: seq<(int, int)>)
    requires 2 * b <= h && 1 <= n <= w && !(n - 1 < b || w - b <= n - 1)
    requires s == SideAttempts(w, h, b, h) + EdgeAttempts(w, h, b, n - 1)
    requires t == AtColumn(n - 1, Range(0, b)) && u == AtColumn(n - 1, Range(h - b, h))
    ensures Repeats(s + t + u) == Repeats(s)
  {
    var side, edge := SideAttempts(w, h, b, h), EdgeAttempts(w, h, b, n - 1);
    forall c | c in t ensures c !in side && c !in edge {
      ColumnNew(w, h, b, n, c);
    }
    FreshOfBoth(side, edge, t);
    ColumnDistinct(n - 1, 0, b);
    RepeatsFresh(s, t);
    forall c | c in u ensures c !in s && c !in t {
      ColumnNew(w, h, b, n, c);
      FreshOfBoth(side, edge, [c]);
    }
    FreshOfBoth(s, t, u);
    ColumnDistinct(n - 1, h - b, h);
    RepeatsFresh(s + t, u);
  }

  /** Column n - 1 of the second loop, between the bands, attempts pixels neither the
      first loop nor the earlier columns did, and its two runs are apart. */
  lemma ColumnNew(w: int, h: int, b: nat, n: nat, c: (int, int))
    requires 2 * b <= h && 1 <= n <= w && !(n - 1 < b || w - b <= n - 1)
    ensures c in AtColumn(n - 1, Range(0, b)) ==>
      c !in SideAttempts(w, h, b, h) && c !in EdgeAttempts(w, h, b, n - 1)
    ensures c in AtColumn(n - 1, Range(h - b, h)) ==>
      c !in SideAttempts(w, h, b, h) && c !in EdgeAttempts(w, h, b, n - 1) && c !in AtColumn(n - 1, Range(0, b))
  {
    ColumnMember(n - 1, 0, b, c);
    ColumnMember(n - 1, h - b, h, c);
    SideMember(w, h, b, h, c);
    EdgeMember(w, h, b, n - 1, c);
  }

  // ---------------------------------------------------------------------------
  // The flood fill, seeding only unvisited pixels
  // ---------------------------------------------------------------------------

  /** The state the fill shares between `enqueue`, `attemptSeed` and its loops. */
  class FloodFill {
    const w: nat
    const h: nat
    const isBg: seq<bool>
    const mask: array<int>
    const visited: array<bool>
    const qx: array<int>
    const qy: array<int>
    var qh: nat
    var qt: nat
    /** The cells queued so far, in order. */
    ghost var queued: seq<int>

    ghost predicate Valid()
      reads this, mask, visited
    {
      |isBg| == w * h && mask.Length == w * h && visited.Length == w * h &&
      qx.Length == w * h && qy.Length == w * h && qx != qy && mask != qx && mask != qy &&
      qh <= qt == |queued| <= w * h && Distinct(queued) &&
      (forall i :: 0 <= i < |queued| ==> 0 <= queued[i] < w * h && visited[queued[i]]) &&
      (forall p :: 0 <= p < w * h && visited[p] ==> mask[p] == Classified(isBg, p))
    }

    /** `new Uint8ClampedArray(w * h)` and friends: nothing visited, nothing queued. */
    constructor (isBg: seq<bool>, w: nat, h: nat)
      requires |isBg| == w * h
      ensures Valid() && this.isBg == isBg && this.w == w && this.h == h
      ensures fresh(mask) && fresh(visited) && fresh(qx) && fresh(qy)
      ensures qh == qt == 0 && forall p :: 0 <= p < w * h ==> !visited[p]
    {
      this.w, this.h, this.isBg := w, h, isBg;
      mask := new int[w * h](_ => 0);
      visited := new bool[w * h](_ => false);
      qx := new int[w * h](_ => 0);
      qy := new int[w * h](_ => 0);
      qh, qt := 0, 0;
      queued := [];
    }

    /** Classify an unvisited cell p at (x, y): `mask[p]` from the test, `visited[p] =
        1`, and `enqueue(x, y)` when it is background. The queue has room: each queued
        cell is a distinct visited cell, and p was not visited. */
    method Mark(p: int, x: int, y: int)
      requires Valid() && 0 <= p < w * h && !visited[p]
      modifies this`qt, this`queued, mask, visited, qx, qy
      ensures Valid() && qh == old(qh)
      ensures visited[..] == old(visited[..])[p := true]
      ensures mask[..] == old(mask[..])[p := Classified(isBg, p)]
      ensures queued == old(queued) + (if isBg[p] then [p] else [])
    {
      mask[p] := Classified(isBg, p);
      visited[p] := true;
      ghost var m, v := mask[..], visited[..];
      if isBg[p] {
        assert p !in queued;
        DistinctBelow(queued + [p], w * h);
        qx[qt] := x;
        qy[qt] := y;
        qt := qt + 1;
        queued := queued + [p];
      }
      assert mask[..] == m && visited[..] == v;
    }

    /** `attemptSeed(x, y)`, also skipping a pixel that is already visited. */
    method AttemptSeed(x: int, y: int)
      requires Valid()
      modifies this`qt, this`queued, mask, visited, qx, qy
      ensures Valid() && qh == old(qh)
    {
      var p := Idx(x, y, w);
      if 0 <= p < w * h && !visited[p] && isBg[p] {
        Mark(p, x, y);
      }
    }

    /** The two seeding loops over the border ring of thickness b. Which cells end up
        seeded is deliberately left unspecified: the final mask does not depend on it
        (see `FillMask`), so only the invariant is promised. */
    method Seed(b: int)
      requires Valid()
      modifies this`qt, this`queued, mask, visited, qx, qy
      ensures Valid() && qh == old(qh)
    {
      var y := 0;
      while y < h
        invariant Valid() && qh == old(qh)
      {
        var x := 0;
        while x < b
          invariant Valid() && qh == old(qh)
        {
          AttemptSeed(x, y);
          x := x + 1;
        }
        x := w - b;
        while x < w
          invariant Valid() && qh == old(qh)
        {
          AttemptSeed(x, y);
          x := x + 1;
        }
        y := y + 1;
      }
      var x := 0;
      while x < w
        invariant Valid() && qh == old(qh)
      {
        y := 0;
        while y < b
          invariant Valid() && qh == old(qh)
        {
          AttemptSeed(x, y);
          y := y + 1;
        }
        y := h - b;
        while y < h
          invariant Valid() && qh == old(qh)
        {
          AttemptSeed(x, y);
          y := y + 1;
        }
        x := x + 1;
      }
    }

    /** The fill loop: dequeue (x, y) and classify each unvisited in-image neighbour.
        It ends because every cell is queued at most once. */
    method Grow()
      requires Valid()
      modifies this`qh, this`qt, this`queued, mask, visited, qx, qy
      ensures Valid() && qh == qt
    {
      while qh < qt
        invariant Valid()
        decreases w * h - qh
      {
        var x, y := qx[qh], qy[qh];
        qh := qh + 1;
        ghost var head := qh;
        var k := 0;
        while k < 4
          invariant Valid() && qh == head
        {
          var nx, ny := x + Nbs[k].0, y + Nbs[k].1;
          if !(nx < 0 || ny < 0 || nx >= w || ny >= h) {
            IdxCoords(nx, ny, w, h);
            var p := Idx(nx, ny, w);
            if !visited[p] {
              Mark(p, nx, ny);
            }
          }
          k := k + 1;
        }
      }
    }

    /** The sweep over unvisited cells: each is classified by the test. */
    method Sweep()
      requires Valid()
      modifies mask
      ensures mask[..] == Threshold(isBg)
    {
      var p := 0;
      while p < mask.Length
        invariant 0 <= p <= mask.Length
        invariant forall q :: 0 <= q < w * h && (q < p || visited[q]) ==> mask[q] == Classified(isBg, q)
      {
        if !visited[p] {
          mask[p] := Classified(isBg, p);
        }
        p := p + 1;
      }
    }
  }

  /** Seeding, flood fill and sweep. Whatever the seeds and whatever connects to
      them, the mask comes out as the per-pixel colour test. */
  method FillMask(isBg: seq<bool>, w: nat, h: nat, b: int) returns (mask: array<int>)
    requires |isBg| == w * h
    ensures fresh(mask) && mask[..] == Threshold(isBg)
  {
    var f := new FloodFill(isBg, w, h);
    f.Seed(b);
    f.Grow();
    f.Sweep();
    mask := f.mask;
  }
}
