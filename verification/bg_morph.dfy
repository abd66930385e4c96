/**
 * Step 3 of the background remover: `morphPass` in js/bgremove.js, a 3×3 minimum
 * (erode) or maximum (dilate) over the mask, and the opening + closing cycles that
 * call it. Each pass writes a zero-filled `out` buffer over the interior cells only
 * and then copies `out` over the whole mask, so the outermost ring of cells comes out
 * 0 after every pass.
 */
module BgMorph {
  import opened Js
  import opened BgGrid

  /** A cell the window loops reach: `1 <= x < w - 1` and `1 <= y < h - 1`. */
  predicate Interior(x: int, y: int, w: int, h: int)
  {
    1 <= x < w - 1 && 1 <= y < h - 1
  }

  /** Every cell of a mask is 0 (background) or 255 (foreground). */
  predicate Binary(m: seq<int>)
  {
    forall p :: 0 <= p < |m| ==> m[p] == 0 || m[p] == 255
  }

  /** All nine window cells of an interior pixel lie in the image. */
  lemma WindowInGrid(x: int, y: int, w: int, h: int, dx: int, dy: int)
    requires Interior(x, y, w, h) && -1 <= dx <= 1 && -1 <= dy <= 1
    ensures 0 <= Idx(x + dx, y + dy, w) < w * h
  {
    IdxCoords(x + dx, y + dy, w, h);
  }

  /** The mask value at (x + dx, y + dy), one of the window cells of (x, y). */
  function Around(m: seq<int>, w: int, h: int, x: int, y: int, dx: int, dy: int): int
    requires |m| == w * h && Interior(x, y, w, h) && -1 <= dx <= 1 && -1 <= dy <= 1
  {
    WindowInGrid(x, y, w, h, dx, dy);
    m[Idx(x + dx, y + dy, w)]
  }

  /** The nine values under the window at (x, y), in the loops' order: `ky` outer,
      `kx` inner, each from -1 to 1. */
  function Window(m: seq<int>, w: int, h: int, x: int, y: int): (r: seq<int>)
    requires |m| == w * h && Interior(x, y, w, h)
    ensures |r| == 9
  {
    seq(9, k requires 0 <= k < 9 => Around(m, w, h, x, y, WindowDx(k), WindowDy(k)))
  }

  /** Column offset of the k-th window cell. */
  function WindowDx(k: int): int
  {
    if k < 3 then k - 1 else if k < 6 then k - 4 else k - 7
  }

  /** Row offset of the k-th window cell. */
  function WindowDy(k: int): int
  {
    if k < 3 then -1 else if k < 6 then 0 else 1
  }

  /** The running value of the window loop: `min` starting from 255 for erode, `max`
      starting from 0 for dilate. */
  function Fold(vals: seq<int>, n: nat, erode: bool): int
    requires n <= |vals|
  {
    if n == 0 then (if erode then 255 else 0)
    else
      var v, e := Fold(vals, n - 1, erode), vals[n - 1];
      if erode then Min(v, e) else Max(v, e)
  }

  /** Erode gives the least of the first n values (255 if they are all larger),
      dilate the greatest (0 if they are all smaller). */
  lemma {:induction false} FoldSpec(vals: seq<int>, n: nat, erode: bool)
    requires n <= |vals|
    ensures erode ==> Fold(vals, n, erode) <= 255 && forall i :: 0 <= i < n ==> Fold(vals, n, erode) <= vals[i]
    ensures !erode ==> Fold(vals, n, erode) >= 0 && forall i :: 0 <= i < n ==> Fold(vals, n, erode) >= vals[i]
    ensures Fold(vals, n, erode) == (if erode then 255 else 0) ||
      exists i :: 0 <= i < n && Fold(vals, n, erode) == vals[i]
  {
    if n > 0 {
      FoldSpec(vals, n - 1, erode);
    }
  }

  /** The value a pass writes to cell p. */
  function Cell(m: seq<int>, w: nat, h: nat, erode: bool, p: int): int
    requires |m| == w * h && 0 <= p < w * h
  {
    CellCoords(p, w, h);
    var x, y := p % w, p / w;
    if Interior(x, y, w, h) then Fold(Window(m, w, h, x, y), 9, erode) else 0
  }

  /** The mask after one `morphPass(m, erode ? 'erode' : 'dilate')`. */
  function Morphed(m: seq<int>, w: nat, h: nat, erode: bool): (r: seq<int>)
    requires |m| == w * h
    ensures |r| == |m|
  {
    seq(|m|, p requires 0 <= p < |m| => Cell(m, w, h, erode, p))
  }

  // ---------------------------------------------------------------------------
  // What a pass does
  // ---------------------------------------------------------------------------

  /** An interior cell becomes the minimum (erode) or maximum (dilate) of its 3×3
      neighbourhood in the mask before the pass: no neighbour is smaller (larger), and
      some neighbour has that value. */
  lemma MorphedInterior(m: seq<int>, w: nat, h: nat, erode: bool, x: int, y: int)
    requires |m| == w * h && Interior(x, y, w, h) && Binary(m)
    ensures 0 <= Idx(x, y, w) < |m|
    ensures forall dx, dy :: -1 <= dx <= 1 && -1 <= dy <= 1 ==>
      if erode then Morphed(m, w, h, erode)[Idx(x, y, w)] <= Around(m, w, h, x, y, dx, dy)
      else Morphed(m, w, h, erode)[Idx(x, y, w)] >= Around(m, w, h, x, y, dx, dy)
    ensures exists dx, dy :: (-1 <= dx <= 1 && -1 <= dy <= 1 &&
      Morphed(m, w, h, erode)[Idx(x, y, w)] == Around(m, w, h, x, y, dx, dy))
  {
    IdxCoords(x, y, w, h);
    var win := Window(m, w, h, x, y);
    var r := Morphed(m, w, h, erode)[Idx(x, y, w)];
    assert r == Fold(win, 9, erode);
    FoldSpec(win, 9, erode);
    forall dx, dy | -1 <= dx <= 1 && -1 <= dy <= 1
      ensures if erode then r <= Around(m, w, h, x, y, dx, dy) else r >= Around(m, w, h, x, y, dx, dy)
    {
      assert win[3 * (dy + 1) + dx + 1] == Around(m, w, h, x, y, dx, dy);
    }
    // When r is the loop's starting value, the centre, a 0/255 cell, equals it.
    assert win[4] == Around(m, w, h, x, y, 0, 0);
    var k :| 0 <= k < 9 && win[k] == r;
    assert r == Around(m, w, h, x, y, WindowDx(k), WindowDy(k));
  }

  /** The outermost ring of cells is 0 after a pass, whatever it was before. */
  lemma MorphedRing(m: seq<int>, w: nat, h: nat, erode: bool, x: int, y: int)
    requires |m| == w * h && InGrid(x, y, w, h)
    requires x == 0 || y == 0 || x == w - 1 || y == h - 1
    ensures 0 <= Idx(x, y, w) < |m| && Morphed(m, w, h, erode)[Idx(x, y, w)] == 0
  {
    IdxCoords(x, y, w, h);
  }

  /** A pass keeps a mask binary. */
  lemma MorphedBinary(m: seq<int>, w: nat, h: nat, erode: bool)
    requires |m| == w * h && Binary(m)
    ensures Binary(Morphed(m, w, h, erode))
  {
    forall p | 0 <= p < |m|
      ensures Morphed(m, w, h, erode)[p] == 0 || Morphed(m, w, h, erode)[p] == 255
    {
      CellCoords(p, w, h);
      var x, y := p % w, p / w;
      if Interior(x, y, w, h) {
        var win := Window(m, w, h, x, y);
        FoldSpec(win, 9, erode);
        forall k | 0 <= k < 9 ensures win[k] == 0 || win[k] == 255 {
          WindowInGrid(x, y, w, h, WindowDx(k), WindowDy(k));
        }
      }
    }
  }

  /** Erode never grows the foreground and dilate never shrinks it: on interior cells
      the result is below (above) the cell's own value, the window's centre. */
  lemma MorphedCentre(m: seq<int>, w: nat, h: nat, erode: bool, x: int, y: int)
    requires |m| == w * h && Interior(x, y, w, h)
    ensures 0 <= Idx(x, y, w) < |m|
    ensures erode ==> Morphed(m, w, h, erode)[Idx(x, y, w)] <= m[Idx(x, y, w)]
    ensures !erode ==> Morphed(m, w, h, erode)[Idx(x, y, w)] >= m[Idx(x, y, w)]
  {
    IdxCoords(x, y, w, h);
    var win := Window(m, w, h, x, y);
    FoldSpec(win, 9, erode);
    assert win[4] == m[Idx(x, y, w)];
  }

  // ---------------------------------------------------------------------------
  // Passes and cycles
  // ---------------------------------------------------------------------------

  /** One opening + closing cycle: erode, dilate, dilate, erode. */
  function Cycle(m: seq<int>, w: nat, h: nat): (r: seq<int>)
    requires |m| == w * h
    ensures |r| == |m|
  {
    Morphed(Morphed(Morphed(Morphed(m, w, h, true), w, h, false), w, h, false), w, h, true)
  }

  /** The mask after `morphPasses` cycles. */
  function Cycles(m: seq<int>, w: nat, h: nat, n: nat): (r: seq<int>)
    requires |m| == w * h
    ensures |r| == |m|
  {
    if n == 0 then m else Cycle(Cycles(m, w, h, n - 1), w, h)
  }

  /** Cycles keep the mask binary, and after at least one cycle the outermost ring is
      background. */
  lemma {:induction false} CyclesSpec(m: seq<int>, w: nat, h: nat, n: nat)
    requires |m| == w * h && Binary(m)
    ensures Binary(Cycles(m, w, h, n))
    ensures n > 0 ==> forall x, y :: InGrid(x, y, w, h) && (x == 0 || y == 0 || x == w - 1 || y == h - 1) ==>
      0 <= Idx(x, y, w) < |m| && Cycles(m, w, h, n)[Idx(x, y, w)] == 0
  {
    if n > 0 {
      CyclesSpec(m, w, h, n - 1);
      var c0 := Cycles(m, w, h, n - 1);
      var c1 := Morphed(c0, w, h, true);
      var c2 := Morphed(c1, w, h, false);
      var c3 := Morphed(c2, w, h, false);
      MorphedBinary(c0, w, h, true);
      MorphedBinary(c1, w, h, false);
      MorphedBinary(c2, w, h, false);
      MorphedBinary(c3, w, h, true);
      forall x, y | InGrid(x, y, w, h) && (x == 0 || y == 0 || x == w - 1 || y == h - 1)
        ensures 0 <= Idx(x, y, w) < |m| && Cycles(m, w, h, n)[Idx(x, y, w)] == 0
      {
        MorphedRing(c3, w, h, true, x, y);
      }
    }
  }

  // ---------------------------------------------------------------------------
  // The in-place passes
  // ---------------------------------------------------------------------------

  /** The two `ky`/`kx` loops over the window of an interior pixel. */
  method WindowExtreme(input: array<int>, w: nat, h: nat, x: int, y: int, erode: bool) returns (v: int)
    requires input.Length == w * h && Interior(x, y, w, h)
    ensures v == Fold(Window(input[..], w, h, x, y), 9, erode)
  {
    ghost var m := input[..];
    ghost var win := Window(m, w, h, x, y);
    v := if erode then 255 else 0;
    var ky := -1;
    while ky <= 1
      invariant -1 <= ky <= 2
      invariant v == Fold(win, 3 * (ky + 1), erode)
    {
      var kx := -1;
      while kx <= 1
        invariant -1 <= kx <= 2
        invariant v == Fold(win, 3 * (ky + 1) + kx + 1, erode)
      {
        WindowInGrid(x, y, w, h, kx, ky);
        ghost var k := 3 * (ky + 1) + kx + 1;
        var value := input[Idx(x + kx, y + ky, w)];
        assert win[k] == Around(m, w, h, x, y, kx, ky) == value;
        v := if erode then Min(v, value) else Max(v, value);
        kx := kx + 1;
      }
      ky := ky + 1;
    }
  }

  /** The value `out` holds at cell p once the loops have reached cell c. */
  function Partial(m: seq<int>, w: nat, h: nat, erode: bool, c: int, p: int): int
    requires |m| == w * h && 0 <= p < w * h
  {
    if p < c then Cell(m, w, h, erode, p) else 0
  }

  /** The cells the loops skip between the end of one row and the start of the next
      are ring cells. */
  lemma RowGap(m: seq<int>, w: nat, h: nat, erode: bool, y: int, p: int)
    requires |m| == w * h && 1 <= y < h - 1 && w > 0 && 0 <= p < w * h
    requires Idx(Max(1, w - 1), y, w) <= p < Idx(1, y + 1, w)
    ensures Cell(m, w, h, erode, p) == 0
  {
    NextRow(0, y, w);
    if p < Idx(w, y, w) {
      IdxCoords(p - Idx(0, y, w), y, w, h);
    } else {
      IdxCoords(0, y + 1, w, h);
    }
  }

  /** The `x` loop over the interior cells of row y, writing `out`. */
  method MorphRow(mask: array<int>, out: array<int>, w: nat, h: nat, y: int, erode: bool)
    requires mask.Length == w * h && out.Length == w * h && out != mask && 1 <= y < h - 1
    requires forall p :: 0 <= p < w * h ==> out[p] == Partial(mask[..], w, h, erode, Idx(1, y, w), p)
    modifies out
    ensures forall p :: 0 <= p < w * h ==> out[p] == Partial(mask[..], w, h, erode, Idx(1, y + 1, w), p)
  {
    ghost var m := mask[..];
    var x := 1;
    while x < w - 1
      invariant 1 <= x <= Max(1, w - 1)
      invariant forall p :: 0 <= p < w * h ==> out[p] == Partial(m, w, h, erode, Idx(x, y, w), p)
    {
      var v := WindowExtreme(mask, w, h, x, y, erode);
      IdxCoords(x, y, w, h);
      out[Idx(x, y, w)] := v;
      x := x + 1;
    }
    forall p | 0 <= p < w * h
      ensures Partial(m, w, h, erode, Idx(x, y, w), p) == Partial(m, w, h, erode, Idx(1, y + 1, w), p)
    {
      if Idx(x, y, w) <= p < Idx(1, y + 1, w) {
        RowGap(m, w, h, erode, y, p);
      }
    }
  }

  /** Cells from the start of the last row the loops reach are ring cells. */
  lemma AfterLastRow(m: seq<int>, w: nat, h: nat, erode: bool, y: int, p: int)
    requires |m| == w * h && 0 <= p < w * h && y >= 1 && y >= h - 1 && p >= Idx(1, y, w)
    ensures Cell(m, w, h, erode, p) == 0
  {
    CellCoords(p, w, h);
    var r := p / w;
    if r < y {
      MulMonotone(w, r, y - 1);
      NextRow(0, y - 1, w);
      assert false;
    }
  }

  /** `morphPass(mask, erode ? 'erode' : 'dilate')`. */
  method MorphPass(mask: array<int>, w: nat, h: nat, erode: bool)
    requires mask.Length == w * h
    modifies mask
    ensures mask[..] == Morphed(old(mask[..]), w, h, erode)
  {
    ghost var m := mask[..];
    var out := new int[w * h](_ => 0);
    var y := 1;
    while y < h - 1
      invariant 1 <= y <= Max(1, h - 1)
      invariant mask[..] == m
      invariant forall p :: 0 <= p < w * h ==> out[p] == Partial(m, w, h, erode, Idx(1, y, w), p)
    {
      MorphRow(mask, out, w, h, y, erode);
      y := y + 1;
    }
    forall p | 0 <= p < w * h
      ensures out[p] == Cell(m, w, h, erode, p)
    {
      if p >= Idx(1, y, w) {
        AfterLastRow(m, w, h, erode, y, p);
      }
    }
    forall i | 0 <= i < mask.Length {
      mask[i] := out[i];
    }
  }

  /** The morphology loop: `morphPasses` opening + closing cycles. */
  method Morphology(mask: array<int>, w: nat, h: nat, passes: int)
    requires mask.Length == w * h
    modifies mask
    ensures mask[..] == Cycles(old(mask[..]), w, h, Max(passes, 0))
  {
    var i := 0;
    while i < passes
      invariant 0 <= i <= Max(passes, 0)
      invariant mask[..] == Cycles(old(mask[..]), w, h, i)
    {
      MorphPass(mask, w, h, true);
      MorphPass(mask, w, h, false);
      MorphPass(mask, w, h, false);
      MorphPass(mask, w, h, true);
      i := i + 1;
    }
  }
}
