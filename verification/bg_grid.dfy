/**
 * Pixel addressing in bgremove.js. A width×height image is stored row by row: pixel
 * (x, y) is mask cell `y * w + x` (and RGBA bytes `4 * (y * w + x)` onwards), and a
 * cell p lies at column `p % w`, row `(p / w) | 0`.
 */
module BgGrid {
  import opened Js

  /** The cell index `y * w + x`. */
  function Idx(x: int, y: int, w: int): int
  {
    y * w + x
  }

  predicate InGrid(x: int, y: int, w: int, h: int)
  {
    0 <= x < w && 0 <= y < h
  }

  /** Quotient and remainder are the only ones: `q * w + r` with `0 <= r < w`. */
  lemma DivModUnique(p: int, w: int, q: int, r: int)
    requires w > 0 && p == q * w + r && 0 <= r < w
    ensures p / w == q && p % w == r
  {
    var q', r' := p / w, p % w;
    if q' > q {
      MulMonotone(w, q + 1, q');
      assert false;
    }
    if q' < q {
      MulMonotone(w, q' + 1, q);
      assert false;
    }
  }

  /** An in-image pixel has a cell in [0, w*h), from which its coordinates come back. */
  lemma IdxCoords(x: int, y: int, w: int, h: int)
    requires InGrid(x, y, w, h)
    ensures 0 <= Idx(x, y, w) < w * h
    ensures Idx(x, y, w) % w == x && Idx(x, y, w) / w == y
  {
    DivModUnique(Idx(x, y, w), w, y, x);
    MulMonotone(w, y + 1, h);
    MulMonotone(w, 0, y);
  }

  /** Every cell of a w×h mask is the cell of the pixel at its column and row. */
  lemma CellCoords(p: int, w: nat, h: nat)
    requires 0 <= p < w * h
    ensures w > 0 && InGrid(p % w, p / w, w, h) && Idx(p % w, p / w, w) == p
  {
    if p / w >= h {
      MulMonotone(w, h, p / w);
      assert false;
    }
  }

  /** Moving one row down moves the cell index by w. */
  lemma NextRow(x: int, y: int, w: int)
    ensures Idx(x, y + 1, w) == Idx(x, y, w) + w
  {
  }

  // ---------------------------------------------------------------------------
  // 4-neighbourhood of a cell, as the artifact search computes it
  // ---------------------------------------------------------------------------

  /** The cells the artifact search looks at from cell p: left if `x > 0`, right if
      `x < w - 1`, up if `y > 0`, down if `y < h - 1`. */
  function Nbrs(p: int, w: int, h: int): set<int>
    requires w > 0
  {
    var x, y := p % w, p / w;
    (if x > 0 then {p - 1} else {}) + (if x < w - 1 then {p + 1} else {}) +
    (if y > 0 then {p - w} else {}) + (if y < h - 1 then {p + w} else {})
  }

  /** Two cells whose pixels are one step apart horizontally or vertically. */
  predicate Adjacent(p: int, q: int, w: int)
    requires w > 0
  {
    var dx, dy := p % w - q % w, p / w - q / w;
    (dy == 0 && (dx == 1 || dx == -1)) || (dx == 0 && (dy == 1 || dy == -1))
  }

  /** The cells the search visits are exactly the in-image cells adjacent to p, so
      the relation is symmetric. */
  lemma NbrsSpec(p: int, q: int, w: nat, h: nat)
    requires 0 <= p < w * h
    ensures w > 0
    ensures q in Nbrs(p, w, h) <==> 0 <= q < w * h && Adjacent(p, q, w)
  {
    CellCoords(p, w, h);
    if q in Nbrs(p, w, h) {
      NbrsAdjacent(p, q, w, h);
    }
    if 0 <= q < w * h && Adjacent(p, q, w) {
      AdjacentNbrs(p, q, w, h);
    }
  }

  lemma NbrsAdjacent(p: int, q: int, w: nat, h: nat)
    requires 0 <= p < w * h && w > 0 && q in Nbrs(p, w, h)
    ensures 0 <= q < w * h && Adjacent(p, q, w)
  {
    CellCoords(p, w, h);
    var x, y := p % w, p / w;
    assert p == Idx(x, y, w);
    if x > 0 && q == p - 1 {
      StepAdjacent(x, y, -1, 0, w, h);
    } else if x < w - 1 && q == p + 1 {
      StepAdjacent(x, y, 1, 0, w, h);
    } else if y > 0 && q == p - w {
      NextRow(x, y - 1, w);
      StepAdjacent(x, y, 0, -1, w, h);
    } else {
      assert y < h - 1 && q == p + w;
      NextRow(x, y, w);
      StepAdjacent(x, y, 0, 1, w, h);
    }
  }

  /** One step inside the image lands on an adjacent cell. */
  lemma StepAdjacent(x: int, y: int, dx: int, dy: int, w: nat, h: nat)
    requires InGrid(x, y, w, h) && InGrid(x + dx, y + dy, w, h)
    requires (dy == 0 && (dx == 1 || dx == -1)) || (dx == 0 && (dy == 1 || dy == -1))
    ensures 0 <= Idx(x + dx, y + dy, w) < w * h && Adjacent(Idx(x, y, w), Idx(x + dx, y + dy, w), w)
  {
    IdxCoords(x, y, w, h);
    IdxCoords(x + dx, y + dy, w, h);
  }

  lemma AdjacentNbrs(p: int, q: int, w: nat, h: nat)
    requires 0 <= p < w * h && 0 <= q < w * h && w > 0 && Adjacent(p, q, w)
    ensures q in Nbrs(p, w, h)
  {
    CellCoords(p, w, h);
    CellCoords(q, w, h);
    var x, y, qx, qy := p % w, p / w, q % w, q / w;
    assert p == Idx(x, y, w) && q == Idx(qx, qy, w);
    if qy == y + 1 {
      NextRow(x, y, w);
    } else if qy == y - 1 {
      NextRow(x, qy, w);
    }
  }

  /** If q is a neighbour of p then p is a neighbour of q. */
  lemma NbrsSymmetric(p: int, q: int, w: nat, h: nat)
    requires 0 <= p < w * h && w > 0 && q in Nbrs(p, w, h)
    ensures 0 <= q < w * h && p in Nbrs(q, w, h)
  {
    NbrsSpec(p, q, w, h);
    NbrsSpec(q, p, w, h);
  }
}
