/**
 * Step 4 of the background remover (bgremove.js): when `smallArtifactPx > 0`, every
 * 4-connected region of foreground (255) cells smaller than `smallArtifactPx` cells is
 * reset to background (0). The regions are measured by a breadth-first search over a
 * `seen` array and an `Int32Array` queue.
 *
 * A region is stated as the set of cells joined to p by a path of foreground cells,
 * each a neighbour (`Nbrs`) of the one before.
 */
module BgArtifacts {
  import opened Js
  import opened Sets
  import opened BgGrid
  import opened BgFill
  import BgMorph

  // ---------------------------------------------------------------------------
  // Regions
  // ---------------------------------------------------------------------------

  /** Cell b is a foreground neighbour of cell a in the w×h mask m. */
  predicate Step(m: seq<int>, w: nat, h: nat, a: int, b: int)
  {
    w > 0 && |m| == w * h && b in Nbrs(a, w, h) && 0 <= b < |m| && m[b] == FG
  }

  /** A path of foreground cells, each a neighbour of the one before. */
  predicate Path(m: seq<int>, w: nat, h: nat, ps: seq<int>)
  {
    |ps| > 0 && 0 <= ps[0] < |m| && m[ps[0]] == FG &&
    forall i :: 0 <= i < |ps| - 1 ==> Step(m, w, h, ps[i], ps[i + 1])
  }

  /** q is reachable from p through foreground neighbours. */
  ghost predicate Connected(m: seq<int>, w: nat, h: nat, p: int, q: int)
  {
    exists ps :: Path(m, w, h, ps) && ps[0] == p && ps[|ps| - 1] == q
  }

  /** The region of cell p: every cell reachable from it. */
  ghost function Region(m: seq<int>, w: nat, h: nat, p: int): (r: set<int>)
    ensures forall q :: q in r ==> 0 <= q < |m|
  {
    set q | 0 <= q < |m| && Connected(m, w, h, p, q)
  }

  /** Every cell of a path is a foreground cell of the mask. */
  lemma PathCells(m: seq<int>, w: nat, h: nat, ps: seq<int>)
    requires Path(m, w, h, ps)
    ensures forall i :: 0 <= i < |ps| ==> 0 <= ps[i] < |m| && m[ps[i]] == FG
  {
    forall i | 0 <= i < |ps| ensures 0 <= ps[i] < |m| && m[ps[i]] == FG {
      if i > 0 {
        assert Step(m, w, h, ps[i - 1], ps[i]);
      }
    }
  }

  /** A foreground cell lies in its own region. */
  lemma RegionHasSelf(m: seq<int>, w: nat, h: nat, p: int)
    requires 0 <= p < |m| && m[p] == FG
    ensures p in Region(m, w, h, p)
  {
    assert Path(m, w, h, [p]);
  }

  /** A region holds only foreground cells, and none when its cell is background. */
  lemma RegionForeground(m: seq<int>, w: nat, h: nat, p: int, q: int)
    requires q in Region(m, w, h, p)
    ensures m[q] == FG && 0 <= p < |m| && m[p] == FG
  {
    var ps :| Path(m, w, h, ps) && ps[0] == p && ps[|ps| - 1] == q;
    PathCells(m, w, h, ps);
  }

  /** One more foreground neighbour extends a path. */
  lemma Extend(m: seq<int>, w: nat, h: nat, p: int, q: int, r: int)
    requires q in Region(m, w, h, p) && Step(m, w, h, q, r)
    ensures r in Region(m, w, h, p)
  {
    var ps :| Path(m, w, h, ps) && ps[0] == p && ps[|ps| - 1] == q;
    var ps' := ps + [r];
    forall i | 0 <= i < |ps'| - 1 ensures Step(m, w, h, ps'[i], ps'[i + 1]) {
      if i < |ps| - 1 {
        assert ps'[i] == ps[i] && ps'[i + 1] == ps[i + 1];
      }
    }
    assert Path(m, w, h, ps');
  }

  /** Reachability is symmetric: a path walked backwards is a path. */
  lemma Reverse(m: seq<int>, w: nat, h: nat, p: int, q: int)
    requires q in Region(m, w, h, p)
    ensures p in Region(m, w, h, q)
  {
    var ps :| Path(m, w, h, ps) && ps[0] == p && ps[|ps| - 1] == q;
    PathCells(m, w, h, ps);
    var n := |ps|;
    var rs := seq(n, i requires 0 <= i < n => ps[n - 1 - i]);
    forall i | 0 <= i < n - 1 ensures Step(m, w, h, rs[i], rs[i + 1]) {
      var j := n - 2 - i;
      assert Step(m, w, h, ps[j], ps[j + 1]);
      StepBack(m, w, h, ps[j], ps[j + 1]);
    }
    assert Path(m, w, h, rs);
  }

  /** The neighbour relation is symmetric, so a step can be taken back. */
  lemma StepBack(m: seq<int>, w: nat, h: nat, a: int, b: int)
    requires Step(m, w, h, a, b) && 0 <= a < |m| && m[a] == FG
    ensures Step(m, w, h, b, a)
  {
    NbrsSymmetric(a, b, w, h);
  }

  /** Reachability is transitive: two paths joined end to start make one. */
  lemma Chain(m: seq<int>, w: nat, h: nat, p: int, q: int, r: int)
    requires q in Region(m, w, h, p) && r in Region(m, w, h, q)
    ensures r in Region(m, w, h, p)
  {
    var ps :| Path(m, w, h, ps) && ps[0] == p && ps[|ps| - 1] == q;
    var qs :| Path(m, w, h, qs) && qs[0] == q && qs[|qs| - 1] == r;
    var rs := ps + qs[1..];
    forall i | 0 <= i < |rs| - 1 ensures Step(m, w, h, rs[i], rs[i + 1]) {
      if i < |ps| - 1 {
        assert rs[i] == ps[i] && rs[i + 1] == ps[i + 1];
      } else {
        assert rs[i] == qs[i - |ps| + 1] && rs[i + 1] == qs[i - |ps| + 2];
      }
    }
    assert Path(m, w, h, rs);
  }

  /** Regions partition the foreground: every cell of p's region has the same region. */
  lemma SameRegion(m: seq<int>, w: nat, h: nat, p: int, q: int)
    requires q in Region(m, w, h, p)
    ensures Region(m, w, h, q) == Region(m, w, h, p)
  {
    Reverse(m, w, h, p, q);
    forall r | r in Region(m, w, h, q) ensures r in Region(m, w, h, p) {
      Chain(m, w, h, p, q, r);
    }
    forall r | r in Region(m, w, h, p) ensures r in Region(m, w, h, q) {
      Chain(m, w, h, q, p, r);
    }
  }

  /** A set of cells that holds p and every foreground neighbour of its cells holds
      p's whole region. */
  lemma ClosedHoldsRegion(m: seq<int>, w: nat, h: nat, p: int, s: set<int>)
    requires p in s
    requires forall a, b :: a in s && Step(m, w, h, a, b) ==> b in s
    ensures Region(m, w, h, p) <= s
  {
    forall q | q in Region(m, w, h, p) ensures q in s {
      var ps :| Path(m, w, h, ps) && ps[0] == p && ps[|ps| - 1] == q;
      PathInClosed(m, w, h, ps, s, |ps| - 1);
    }
  }

  lemma {:induction false} PathInClosed(m: seq<int>, w: nat, h: nat, ps: seq<int>, s: set<int>, k: nat)
    requires Path(m, w, h, ps) && ps[0] in s && k < |ps|
    requires forall a, b :: a in s && Step(m, w, h, a, b) ==> b in s
    ensures ps[k] in s
  {
    if k > 0 {
      PathInClosed(m, w, h, ps, s, k - 1);
      assert Step(m, w, h, ps[k - 1], ps[k]);
    }
  }

  /** The mask after step 4: a foreground cell whose region has fewer than `small`
      cells becomes background; every other cell keeps its value. */
  ghost function Cleaned(m: seq<int>, w: nat, h: nat, small: int): (r: seq<int>)
    ensures |r| == |m|
  {
    seq(|m|, p requires 0 <= p < |m| => if m[p] == FG && |Region(m, w, h, p)| < small then BG else m[p])
  }

  /** The removal keeps a 0/255 mask a 0/255 mask. */
  lemma CleanedBinary(m: seq<int>, w: nat, h: nat, small: int)
    requires BgMorph.Binary(m)
    ensures BgMorph.Binary(Cleaned(m, w, h, small))
  {
  }

  /** Only foreground cells change, and only to background; a foreground cell that
      remains has a region of at least `small` cells. */
  lemma CleanedOnlyClears(m: seq<int>, w: nat, h: nat, small: int)
    ensures forall p :: 0 <= p < |m| && Cleaned(m, w, h, small)[p] != m[p] ==> m[p] == FG && Cleaned(m, w, h, small)[p] == BG
    ensures forall p :: 0 <= p < |m| && Cleaned(m, w, h, small)[p] == FG ==> m[p] == FG && |Region(m, w, h, p)| >= small
  {
  }

  /** `smallArtifactPx = 1` removes nothing: every region holds at least its own cell. */
  lemma CleanedOneKeeps(m: seq<int>, w: nat, h: nat, small: int)
    requires small <= 1
    ensures Cleaned(m, w, h, small) == m
  {
    forall p | 0 <= p < |m| && m[p] == FG ensures |Region(m, w, h, p)| >= 1 {
      RegionHasSelf(m, w, h, p);
    }
  }

  /** A path of foreground cells stays a path in a mask of the same size where its
      cells are still foreground. */
  lemma PathTransfer(m: seq<int>, m': seq<int>, w: nat, h: nat, ps: seq<int>)
    requires Path(m, w, h, ps) && |m'| == |m|
    requires forall i :: 0 <= i < |ps| ==> 0 <= ps[i] < |m'| && m'[ps[i]] == FG
    ensures Path(m', w, h, ps)
  {
    forall i | 0 <= i < |ps| - 1 ensures Step(m', w, h, ps[i], ps[i + 1]) {
      assert Step(m, w, h, ps[i], ps[i + 1]);
    }
  }

  /** Every cell along a path from p lies in p's region. */
  lemma PathInRegion(m: seq<int>, w: nat, h: nat, ps: seq<int>, k: nat)
    requires Path(m, w, h, ps) && k < |ps|
    ensures ps[k] in Region(m, w, h, ps[0])
  {
    var pre := ps[..k + 1];
    forall i | 0 <= i < |pre| - 1 ensures Step(m, w, h, pre[i], pre[i + 1]) {
      assert pre[i] == ps[i] && pre[i + 1] == ps[i + 1];
    }
    assert Path(m, w, h, pre);
    PathCells(m, w, h, ps);
  }

  /** A cell that survives the removal keeps its region: its region is large, so none
      of it was cleared. */
  lemma CleanedRegion(m: seq<int>, w: nat, h: nat, small: int, p: int)
    requires 0 <= p < |m| && Cleaned(m, w, h, small)[p] == FG
    ensures Region(Cleaned(m, w, h, small), w, h, p) == Region(m, w, h, p)
  {
    var m' := Cleaned(m, w, h, small);
    forall q | q in Region(m', w, h, p) ensures q in Region(m, w, h, p) {
      var ps :| Path(m', w, h, ps) && ps[0] == p && ps[|ps| - 1] == q;
      PathCells(m', w, h, ps);
      PathTransfer(m', m, w, h, ps);
    }
    forall q | q in Region(m, w, h, p) ensures q in Region(m', w, h, p) {
      var ps :| Path(m, w, h, ps) && ps[0] == p && ps[|ps| - 1] == q;
      PathCells(m, w, h, ps);
      forall i | 0 <= i < |ps| ensures 0 <= ps[i] < |m'| && m'[ps[i]] == FG {
        PathInRegion(m, w, h, ps, i);
        SameRegion(m, w, h, p, ps[i]);
        RegionForeground(m, w, h, p, ps[i]);
      }
      PathTransfer(m, m', w, h, ps);
    }
  }

  /** The removal is idempotent: running step 4 again changes nothing. */
  lemma CleanedIdempotent(m: seq<int>, w: nat, h: nat, small: int)
    ensures Cleaned(Cleaned(m, w, h, small), w, h, small) == Cleaned(m, w, h, small)
  {
    var m' := Cleaned(m, w, h, small);
    forall p | 0 <= p < |m'| && m'[p] == FG ensures |Region(m', w, h, p)| >= small {
      CleanedRegion(m, w, h, small, p);
    }
  }

  // ---------------------------------------------------------------------------
  // The search
  // ---------------------------------------------------------------------------

  /** The state of one breadth-first search from p0 over the original mask m0:
      `seen0` is `seen` before it began and holds no cell of p0's region; the queue
      `qs` starts at p0, holds distinct cells of that region, and every cell `seen`
      added is queued; each of the first `head` queued cells has had its foreground
      neighbours seen. */
  ghost predicate Search(m0: seq<int>, w: nat, h: nat, p0: int, seen0: seq<bool>, seen: seq<bool>, qs: seq<int>, head: nat)
  {
    |m0| == w * h && |seen0| == w * h && |seen| == w * h &&
    head <= |qs| && qs != [] && qs[0] == p0 && Distinct(qs) &&
    (forall r :: r in Region(m0, w, h, p0) ==> !seen0[r]) &&
    (forall i :: 0 <= i < |qs| ==> qs[i] in Region(m0, w, h, p0)) &&
    (forall r :: 0 <= r < w * h ==> (seen[r] <==> seen0[r] || r in qs)) &&
    (forall i, b :: 0 <= i < head && Step(m0, w, h, qs[i], b) ==> seen[b])
  }

  /** Cells not yet seen still hold their original value. */
  predicate Untouched(mask: seq<int>, seen: seq<bool>, m0: seq<int>)
  {
    |mask| == |seen| == |m0| && forall r :: 0 <= r < |mask| && !seen[r] ==> mask[r] == m0[r]
  }

  /** The search state once p0 is queued and marked seen. */
  lemma SearchStart(m0: seq<int>, w: nat, h: nat, p0: int, seen0: seq<bool>)
    requires |m0| == w * h && |seen0| == w * h && 0 <= p0 < w * h && !seen0[p0] && m0[p0] == FG
    requires forall a, b :: 0 <= a < w * h && seen0[a] && Step(m0, w, h, a, b) ==> seen0[b]
    ensures Search(m0, w, h, p0, seen0, seen0[p0 := true], [p0], 0)
  {
    SeenApart(m0, w, h, p0, seen0);
    RegionHasSelf(m0, w, h, p0);
  }

  /** The body of one of the four `if`s: queue neighbour np of p unless it is seen or
      not foreground. */
  method Offer(mask: array<int>, seen: array<bool>, q: array<int>, w: nat, h: nat, p: int, np: int, tail: nat,
               ghost m0: seq<int>, ghost p0: int, ghost seen0: seq<bool>, ghost head: nat)
    returns (tail': nat)
    requires mask != q && q.Length == w * h && tail <= w * h
    requires Search(m0, w, h, p0, seen0, seen[..], q[..tail], head) && Untouched(mask[..], seen[..], m0)
    requires p in Region(m0, w, h, p0) && np in Nbrs(p, w, h) && w > 0
    modifies seen, q
    ensures tail <= tail' <= w * h && forall i :: 0 <= i < tail ==> q[i] == old(q[i])
    ensures Search(m0, w, h, p0, seen0, seen[..], q[..tail'], head) && Untouched(mask[..], seen[..], m0)
    ensures Step(m0, w, h, p, np) ==> seen[np]
    ensures forall r :: 0 <= r < w * h && old(seen[r]) ==> seen[r]
  {
    ghost var qs, sn := q[..tail], seen[..];
    NbrsSpec(p, np, w, h);
    tail' := tail;
    if !seen[np] && mask[np] == FG {
      SearchAdd(m0, w, h, p0, seen0, sn, qs, head, p, np);
      seen[np] := true;
      q[tail] := np;
      tail' := tail + 1;
      assert q[..tail'] == qs + [np];
      assert seen[..] == sn[np := true];
    }
  }

  /** Queuing an unseen foreground neighbour of a queued cell keeps the search state. */
  lemma SearchAdd(m0: seq<int>, w: nat, h: nat, p0: int, seen0: seq<bool>, seen: seq<bool>, qs: seq<int>, head: nat, p: int, np: int)
    requires Search(m0, w, h, p0, seen0, seen, qs, head) && p in Region(m0, w, h, p0)
    requires Step(m0, w, h, p, np) && !seen[np]
    ensures 0 <= np < w * h && |qs| < w * h
    ensures Search(m0, w, h, p0, seen0, seen[np := true], qs + [np], head)
  {
    Extend(m0, w, h, p0, p, np);
    assert np !in qs;
    DistinctBelow(qs + [np], w * h);
    var qs' := qs + [np];
    assert forall i :: 0 <= i < |qs| ==> qs'[i] == qs[i];
  }

  /** The search from an unseen foreground cell p0: dequeue each cell, record it in
      `pixels`, and offer its left, right, upper and lower neighbours. It records
      exactly p0's region, each cell once, and sees exactly that region besides what
      was seen before. */
  method Measure(mask: array<int>, seen: array<bool>, q: array<int>, w: nat, h: nat, p0: int, ghost m0: seq<int>)
    returns (pixels: seq<int>)
    requires mask != q && mask.Length == w * h && q.Length == w * h && seen.Length == w * h && |m0| == w * h
    requires 0 <= p0 < w * h && !seen[p0] && mask[p0] == FG && Untouched(mask[..], seen[..], m0)
    requires forall a, b :: 0 <= a < w * h && seen[a] && Step(m0, w, h, a, b) ==> seen[b]
    modifies seen, q
    ensures Distinct(pixels) && (set r | r in pixels) == Region(m0, w, h, p0)
    ensures forall r :: 0 <= r < w * h ==> (seen[r] <==> old(seen[r]) || r in Region(m0, w, h, p0))
  {
    ghost var seen0 := seen[..];
    SearchStart(m0, w, h, p0, seen0);
    var head, tail := 0, 1;
    q[0] := p0;
    seen[p0] := true;
    pixels := [];
    assert q[..tail] == [p0] && seen[..] == seen0[p0 := true];
    while head < tail
      invariant 0 <= head <= tail <= w * h && w > 0
      invariant Search(m0, w, h, p0, seen0, seen[..], q[..tail], head) && Untouched(mask[..], seen[..], m0)
      invariant pixels == q[..head]
      decreases w * h - head
    {
      var p := q[head];
      head := head + 1;
      pixels := pixels + [p];
      assert p in q[..tail];
      tail := Neighbours(mask, seen, q, w, h, p, tail, m0, p0, seen0, head);
      assert q[..head] == pixels;
    }
    SearchDone(m0, w, h, p0, seen0, seen[..], q[..tail]);
  }

  /** Offer the four neighbours of the cell just dequeued (`head - 1`). */
  method Neighbours(mask: array<int>, seen: array<bool>, q: array<int>, w: nat, h: nat, p: int, tail: nat,
                    ghost m0: seq<int>, ghost p0: int, ghost seen0: seq<bool>, ghost head: nat)
    returns (tail': nat)
    requires mask != q && q.Length == w * h && tail <= w * h && w > 0 && 0 < head <= tail
    requires Search(m0, w, h, p0, seen0, seen[..], q[..tail], head - 1) && Untouched(mask[..], seen[..], m0)
    requires p == q[head - 1]
    modifies seen, q
    ensures tail <= tail' <= w * h && q[..head] == old(q[..head])
    ensures Search(m0, w, h, p0, seen0, seen[..], q[..tail'], head) && Untouched(mask[..], seen[..], m0)
  {
    assert q[..tail][head - 1] == p;
    assert p in Region(m0, w, h, p0);
    NbrsCases(p, w, h);
    tail' := tail;
    var k := 0;
    while k < 4
      invariant 0 <= k <= 4 && tail <= tail' <= w * h
      invariant forall i :: 0 <= i < tail ==> q[i] == old(q[i])
      invariant Search(m0, w, h, p0, seen0, seen[..], q[..tail'], head - 1) && Untouched(mask[..], seen[..], m0)
      invariant Offered(m0, w, h, p, seen[..], k)
    {
      ghost var before := seen[..];
      var c := Candidate(p, w, h, k);
      if c.Some? {
        tail' := Offer(mask, seen, q, w, h, p, c.value, tail', m0, p0, seen0, head - 1);
      }
      OfferedStep(m0, w, h, p, before, seen[..], k);
      k := k + 1;
    }
    Covered(m0, w, h, p, seen[..]);
    assert q[..head] == old(q[..head]);
    assert q[..tail'][head - 1] == p;
    SearchNext(m0, w, h, p0, seen0, seen[..], q[..tail'], head - 1);
  }

  /** The k-th of the search's four tests on cell p, in the source's order: left if
      `x > 0`, right if `x < w - 1`, up if `y > 0`, down if `y < h - 1`; the neighbour
      when the test passes. */
  function Candidate(p: int, w: nat, h: nat, k: int): (c: Option<int>)
    requires w > 0
  {
    var x, y := p % w, p / w;
    if k == 0 then (if x > 0 then Some(p - 1) else None)
    else if k == 1 then (if x < w - 1 then Some(p + 1) else None)
    else if k == 2 then (if y > 0 then Some(p - w) else None)
    else (if y < h - 1 then Some(p + w) else None)
  }

  /** The four neighbours the search looks at, by the tests it makes. */
  lemma NbrsCases(p: int, w: nat, h: nat)
    requires w > 0
    ensures forall b :: b in Nbrs(p, w, h) <==>
      (p % w > 0 && b == p - 1) || (p % w < w - 1 && b == p + 1) || (p / w > 0 && b == p - w) || (p / w < h - 1 && b == p + w)
  {
  }

  /** Every neighbour among the first k tests that the search may step to is seen. */
  predicate Offered(m0: seq<int>, w: nat, h: nat, p: int, seen: seq<bool>, k: int)
    requires w > 0 && |seen| == |m0|
  {
    forall j :: 0 <= j < k && Candidate(p, w, h, j).Some? && Step(m0, w, h, p, Candidate(p, w, h, j).value) ==>
      seen[Candidate(p, w, h, j).value]
  }

  /** Seeing more cells keeps the earlier tests done, and test k is done once its
      neighbour is seen. */
  lemma OfferedStep(m0: seq<int>, w: nat, h: nat, p: int, seen: seq<bool>, seen': seq<bool>, k: int)
    requires w > 0 && |seen| == |m0| == |seen'| && Offered(m0, w, h, p, seen, k)
    requires forall r :: 0 <= r < |seen| && seen[r] ==> seen'[r]
    requires Candidate(p, w, h, k).Some? && Step(m0, w, h, p, Candidate(p, w, h, k).value) ==>
      seen'[Candidate(p, w, h, k).value]
    ensures Offered(m0, w, h, p, seen', k + 1)
  {
  }

  lemma Covered(m0: seq<int>, w: nat, h: nat, p: int, seen: seq<bool>)
    requires w > 0 && |seen| == |m0|
    requires Offered(m0, w, h, p, seen, 4)
    ensures forall b :: Step(m0, w, h, p, b) ==> seen[b]
  {
    NbrsCases(p, w, h);
    assert Candidate(p, w, h, 0).Some? ==> Candidate(p, w, h, 0).value == p - 1;
    assert Candidate(p, w, h, 1).Some? ==> Candidate(p, w, h, 1).value == p + 1;
    assert Candidate(p, w, h, 2).Some? ==> Candidate(p, w, h, 2).value == p - w;
    assert Candidate(p, w, h, 3).Some? ==> Candidate(p, w, h, 3).value == p + w;
  }

  /** A cell outside a closed seen set has no seen cell in its region. */
  lemma SeenApart(m0: seq<int>, w: nat, h: nat, p0: int, seen0: seq<bool>)
    requires |seen0| == |m0| && 0 <= p0 < |m0| && !seen0[p0]
    requires forall a, b :: 0 <= a < |m0| && seen0[a] && Step(m0, w, h, a, b) ==> seen0[b]
    ensures forall r :: r in Region(m0, w, h, p0) ==> !seen0[r]
  {
    forall r | r in Region(m0, w, h, p0) ensures !seen0[r] {
      if seen0[r] {
        Reverse(m0, w, h, p0, r);
        var s := set a | 0 <= a < |m0| && seen0[a];
        ClosedHoldsRegion(m0, w, h, r, s);
        assert false;
      }
    }
  }

  /** Once all of a dequeued cell's foreground neighbours are seen, it counts as done. */
  lemma SearchNext(m0: seq<int>, w: nat, h: nat, p0: int, seen0: seq<bool>, seen: seq<bool>, qs: seq<int>, head: nat)
    requires Search(m0, w, h, p0, seen0, seen, qs, head) && head < |qs|
    requires forall b :: Step(m0, w, h, qs[head], b) ==> seen[b]
    ensures Search(m0, w, h, p0, seen0, seen, qs, head + 1)
  {
  }

  /** An exhausted queue holds exactly p0's region. */
  lemma SearchDone(m0: seq<int>, w: nat, h: nat, p0: int, seen0: seq<bool>, seen: seq<bool>, qs: seq<int>)
    requires Search(m0, w, h, p0, seen0, seen, qs, |qs|)
    ensures (set r | r in qs) == Region(m0, w, h, p0)
    ensures forall r :: 0 <= r < w * h ==> (seen[r] <==> seen0[r] || r in Region(m0, w, h, p0))
  {
    var b := set r | r in qs;
    forall a, c | a in b && Step(m0, w, h, a, c) ensures c in b {
      var i :| 0 <= i < |qs| && qs[i] == a;
      Extend(m0, w, h, p0, a, c);
    }
    ClosedHoldsRegion(m0, w, h, p0, b);
  }

  // ---------------------------------------------------------------------------
  // The removal
  // ---------------------------------------------------------------------------

  /** The state of the scan over p0 after the first `p0` cells: `seen` holds only
      foreground cells, every foreground neighbour of a seen cell, and every
      foreground cell before p0; each seen cell whose region is small is cleared and
      every other cell keeps its original value. */
  ghost predicate Swept(m0: seq<int>, w: nat, h: nat, small: int, p0: int, seen: seq<bool>, mask: seq<int>)
  {
    |m0| == w * h && |seen| == w * h && |mask| == w * h &&
    (forall r :: 0 <= r < w * h && seen[r] ==> m0[r] == FG) &&
    (forall a, b :: 0 <= a < w * h && seen[a] && Step(m0, w, h, a, b) ==> seen[b]) &&
    (forall r :: 0 <= r < p0 && r < w * h && m0[r] == FG ==> seen[r]) &&
    (forall r :: 0 <= r < w * h ==> mask[r] == if seen[r] && |Region(m0, w, h, r)| < small then BG else m0[r])
  }

  lemma SweptUntouched(m0: seq<int>, w: nat, h: nat, small: int, p0: int, seen: seq<bool>, mask: seq<int>)
    requires Swept(m0, w, h, small, p0, seen, mask)
    ensures Untouched(mask, seen, m0)
    ensures forall a, b :: 0 <= a < w * h && seen[a] && Step(m0, w, h, a, b) ==> seen[b]
  {
  }

  lemma SweptStart(m0: seq<int>, w: nat, h: nat, small: int, seen: seq<bool>)
    requires |m0| == w * h && |seen| == w * h && forall r :: 0 <= r < w * h ==> !seen[r]
    ensures Swept(m0, w, h, small, 0, seen, m0)
  {
  }

  lemma SweptEnd(m0: seq<int>, w: nat, h: nat, small: int, seen: seq<bool>, mask: seq<int>)
    requires Swept(m0, w, h, small, w * h, seen, mask)
    ensures mask == Cleaned(m0, w, h, small)
  {
  }

  /** With `small <= 0` (step 4 switched off) the mask is already clean. */
  lemma CleanedNothing(m0: seq<int>, w: nat, h: nat, small: int)
    requires small <= 0
    ensures Cleaned(m0, w, h, small) == m0
  {
  }

  /** A cell that is seen or not foreground needs no search. */
  lemma SweptSkip(m0: seq<int>, w: nat, h: nat, small: int, p0: int, seen: seq<bool>, mask: seq<int>)
    requires Swept(m0, w, h, small, p0, seen, mask) && 0 <= p0 < w * h
    requires seen[p0] || mask[p0] != FG
    ensures Swept(m0, w, h, small, p0 + 1, seen, mask)
  {
  }

  /** After searching p0's region and clearing it when small, the scan moves on. */
  lemma SweptRegion(m0: seq<int>, w: nat, h: nat, small: int, p0: int, seen: seq<bool>, mask: seq<int>,
                    seen': seq<bool>, mask': seq<int>, pixels: seq<int>)
    requires Swept(m0, w, h, small, p0, seen, mask) && 0 <= p0 < w * h && !seen[p0] && mask[p0] == FG
    requires Distinct(pixels) && (set r | r in pixels) == Region(m0, w, h, p0)
    requires |seen'| == w * h && forall r :: 0 <= r < w * h ==> (seen'[r] <==> seen[r] || r in Region(m0, w, h, p0))
    requires |mask'| == w * h
    requires forall r :: 0 <= r < w * h ==> mask'[r] == if |pixels| < small && r in pixels then BG else mask[r]
    ensures Swept(m0, w, h, small, p0 + 1, seen', mask')
  {
    DistinctCard(pixels);
    forall r | r in Region(m0, w, h, p0)
      ensures m0[r] == FG && Region(m0, w, h, r) == Region(m0, w, h, p0) && !seen[r]
    {
      RegionForeground(m0, w, h, p0, r);
      SameRegion(m0, w, h, p0, r);
      SeenApart(m0, w, h, p0, seen);
    }
    forall a, b | 0 <= a < w * h && seen'[a] && Step(m0, w, h, a, b) ensures seen'[b] {
      if a in Region(m0, w, h, p0) {
        Extend(m0, w, h, p0, a, b);
      }
    }
    RegionHasSelf(m0, w, h, p0);
  }

  /** `for (const p of pixels) mask[p] = BG`. */
  method Clear(mask: array<int>, pixels: seq<int>)
    requires forall i :: 0 <= i < |pixels| ==> 0 <= pixels[i] < mask.Length
    modifies mask
    ensures forall r :: 0 <= r < mask.Length ==> mask[r] == if r in pixels then BG else old(mask[r])
  {
    var k := 0;
    while k < |pixels|
      invariant 0 <= k <= |pixels|
      invariant forall r :: 0 <= r < mask.Length ==> mask[r] == if r in pixels[..k] then BG else old(mask[r])
    {
      mask[pixels[k]] := BG;
      assert pixels[..k + 1] == pixels[..k] + [pixels[k]];
      k := k + 1;
    }
    assert pixels[..k] == pixels;
  }

  /** One turn of the scan: skip p0 when it is seen or not foreground; otherwise
      measure its region and clear it when it has fewer than `small` cells. */
  method Visit(mask: array<int>, seen: array<bool>, q: array<int>, w: nat, h: nat, small: int, p0: int, ghost m0: seq<int>)
    requires mask != q && q.Length == w * h && 0 <= p0 < w * h
    requires Swept(m0, w, h, small, p0, seen[..], mask[..])
    modifies mask, seen, q
    ensures Swept(m0, w, h, small, p0 + 1, seen[..], mask[..])
  {
    if seen[p0] || mask[p0] != FG {
      SweptSkip(m0, w, h, small, p0, seen[..], mask[..]);
    } else {
      ghost var seenB, maskB := seen[..], mask[..];
      SweptUntouched(m0, w, h, small, p0, seenB, maskB);
      var pixels := Measure(mask, seen, q, w, h, p0, m0);
      var size := |pixels|;
      if size < small {
        forall i | 0 <= i < |pixels| ensures 0 <= pixels[i] < mask.Length {
          assert pixels[i] in Region(m0, w, h, p0);
        }
        Clear(mask, pixels);
      }
      SweptRegion(m0, w, h, small, p0, seenB, maskB, seen[..], mask[..], pixels);
    }
  }

  /** Step 4: with `smallArtifactPx > 0`, search the region of every foreground cell
      not yet seen, and reset it to background when it has fewer than `small` cells.
      The mask comes out as `Cleaned`; with `small <= 0` it is left as it is. */
  method RemoveSmallArtifacts(mask: array<int>, w: nat, h: nat, small: int)
    requires mask.Length == w * h
    modifies mask
    ensures mask[..] == Cleaned(old(mask[..]), w, h, small)
  {
    ghost var m0 := mask[..];
    if small > 0 {
      var seen := new bool[mask.Length](_ => false);
      var q := new int[mask.Length](_ => 0);
      SweptStart(m0, w, h, small, seen[..]);
      var p0 := 0;
      while p0 < mask.Length
        invariant 0 <= p0 <= mask.Length
        invariant Swept(m0, w, h, small, p0, seen[..], mask[..])
      {
        Visit(mask, seen, q, w, h, small, p0, m0);
        p0 := p0 + 1;
      }
      SweptEnd(m0, w, h, small, seen[..], mask[..]);
    } else {
      CleanedNothing(m0, w, h, small);
    }
  }
}
