/**
 * The image analyser in js/analyze.js: the pixel loop of the Analyze button that
 * counts coarse colour bins in a `Map` and the pixels that are not fully opaque, the
 * heuristic label chosen from the colour count and the entropy, and the format
 * label taken from the file name.
 */
module Analyze {
  import opened Js
  import opened Pixels

  // ---------------------------------------------------------------------------
  // Coarse bins
  // ---------------------------------------------------------------------------

  /** The bin key `(floor(r/24) << 16) | (floor(g/24) << 8) | floor(b/24)`; the three
      fields are below 11 and do not overlap, so the OR is a sum (see `BinFields`). */
  function BinKey(r: Byte, g: Byte, b: Byte): (k: int)
    ensures 0 <= k < 0x1_00_00_00
  {
    (r / 24) * 65536 + (g / 24) * 256 + b / 24
  }

  /** Packing three values below 256 with shifts and OR adds them at weights 65536,
      256 and 1. */
  lemma BinFields(ri: bv32, gi: bv32, bi: bv32)
    requires ri < 256 && gi < 256 && bi < 256
    ensures (ri << 16) | (gi << 8) | bi == ri * 65536 + gi * 256 + bi
  {
  }

  /** Each channel falls in one of the eleven bands 0..10 of width 24, and the key
      gives the three bands back: two colours share a bin exactly when their bands
      agree. */
  lemma BinKeySpec(r: Byte, g: Byte, b: Byte, r': Byte, g': Byte, b': Byte)
    ensures 0 <= r / 24 <= 10 && 0 <= g / 24 <= 10 && 0 <= b / 24 <= 10
    ensures var k := BinKey(r, g, b);
      k / 65536 == r / 24 && (k / 256) % 256 == g / 24 && k % 256 == b / 24
    ensures BinKey(r, g, b) == BinKey(r', g', b') <==> r / 24 == r' / 24 && g / 24 == g' / 24 && b / 24 == b' / 24
  {
    Unpack(r / 24, g / 24, b / 24);
    Unpack(r' / 24, g' / 24, b' / 24);
  }

  /** Three fields below 256 are read back from their packed sum. */
  lemma Unpack(x: int, y: int, z: int)
    requires 0 <= x < 256 && 0 <= y < 256 && 0 <= z < 256
    ensures var k := x * 65536 + y * 256 + z;
      k / 65536 == x && (k / 256) % 256 == y && k % 256 == z
  {
    var k := x * 65536 + y * 256 + z;
    var hi := x * 256 + y;
    assert k == hi * 256 + z;
    assert k / 256 == hi && k % 256 == z;
    assert hi % 256 == y;
    assert k == x * 65536 + (y * 256 + z) && 0 <= y * 256 + z < 65536;
  }

  /** The bin key of pixel p. */
  function PixelKey(data: seq<Byte>, p: nat): int
    requires 4 * p + 3 < |data|
  {
    var px := PixelAt(data, p);
    BinKey(px.r, px.g, px.b)
  }

  /** The keys of the first n pixels, in order. */
  function Keys(data: seq<Byte>, n: nat): (ks: seq<int>)
    requires 4 * n <= |data|
    ensures |ks| == n
  {
    seq(n, p requires 0 <= p < n => PixelKey(data, p))
  }

  /** The number of the first n pixels whose alpha is below 255. */
  function Translucent(data: seq<Byte>, n: nat): (c: nat)
    requires 4 * n <= |data|
    ensures c <= n
  {
    if n == 0 then 0 else Translucent(data, n - 1) + (if data[4 * (n - 1) + 3] < 255 then 1 else 0)
  }

  /** `bins` holds, for each key, how many pixels have it. */
  ghost predicate Tally(bins: map<int, int>, ks: seq<int>)
  {
    (forall k :: k in bins <==> k in multiset(ks)) &&
    (forall k :: k in bins ==> bins[k] == multiset(ks)[k])
  }

  /** The map after counting the first p pixels into it, one after the other. */
  function Counts(data: seq<Byte>, p: nat): map<int, int>
    requires 4 * p <= |data|
  {
    if p == 0 then map[]
    else
      var m := Counts(data, p - 1);
      var key := PixelKey(data, p - 1);
      m[key := (if key in m then m[key] else 0) + 1]
  }

  /** Counting pixel after pixel tallies every key: the map holds exactly the keys
      of the first p pixels, each with its number of pixels. */
  lemma {:induction false} CountsTally(data: seq<Byte>, p: nat)
    requires 4 * p <= |data|
    ensures Tally(Counts(data, p), Keys(data, p))
  {
    if p > 0 {
      CountsTally(data, p - 1);
      assert Keys(data, p) == Keys(data, p - 1) + [PixelKey(data, p - 1)];
      TallyStep(Counts(data, p - 1), Keys(data, p - 1), PixelKey(data, p - 1));
    }
  }

  /** The pixel loop of the Analyze button over an image of n pixels: `bins` counts
      the pixels of every bin and `alphaCount` the pixels with alpha below 255. */
  method CountBins(data: seq<Byte>, n: nat) returns (bins: map<int, int>, alphaCount: int)
    requires |data| == 4 * n
    ensures bins == Counts(data, n) && Tally(bins, Keys(data, n))
    ensures alphaCount == Translucent(data, n)
  {
    bins := map[];
    alphaCount := 0;
    var i, p := 0, 0;
    while i < |data|
      invariant i == 4 * p && 0 <= p <= n
      invariant bins == Counts(data, p)
      invariant alphaCount == Translucent(data, p)
    {
      var r, g, b, a := data[i], data[i + 1], data[i + 2], data[i + 3];
      var key := BinKey(r, g, b);
      TranslucentStep(data, p);
      bins := bins[key := (if key in bins then bins[key] else 0) + 1];
      if a < 255 {
        alphaCount := alphaCount + 1;
      }
      i, p := i + 4, p + 1;
    }
    CountsTally(data, n);
  }

  lemma TranslucentStep(data: seq<Byte>, p: nat)
    requires 4 * p + 3 < |data|
    ensures Translucent(data, p + 1) == Translucent(data, p) + (if data[4 * p + 3] < 255 then 1 else 0)
  {
  }

  /** `bins.set(key, (bins.get(key) || 0) + 1)` counts one more pixel with that key. */
  lemma TallyStep(bins: map<int, int>, ks: seq<int>, key: int)
    requires Tally(bins, ks)
    ensures Tally(bins[key := (if key in bins then bins[key] else 0) + 1], ks + [key])
  {
    assert multiset(ks + [key]) == multiset(ks)[key := multiset(ks)[key] + 1];
  }

  /** The counts add up to the number of pixels: the bins are the multiset of pixel
      keys, whose size is n. */
  lemma BinsTotal(data: seq<Byte>, n: nat, bins: map<int, int>)
    requires |data| == 4 * n && Tally(bins, Keys(data, n))
    ensures |multiset(Keys(data, n))| == n
    ensures forall k :: k in bins ==> 1 <= bins[k] <= n
  {
    var ks := Keys(data, n);
    forall k | k in bins ensures 1 <= bins[k] <= n {
      MultiplicityBound(ks, k);
    }
  }

  lemma {:induction false} MultiplicityBound(ks: seq<int>, k: int)
    ensures multiset(ks)[k] <= |ks|
  {
    if ks != [] {
      MultiplicityBound(ks[1..], k);
      assert ks == [ks[0]] + ks[1..];
    }
  }

  /** The colour count `bins.size` is the number of distinct keys, at most the
      number of pixels. */
  lemma ColorsBound(data: seq<Byte>, n: nat, bins: map<int, int>)
    requires |data| == 4 * n && Tally(bins, Keys(data, n))
    ensures bins.Keys == set k | k in Keys(data, n)
    ensures |bins| <= n
  {
    var ks := Keys(data, n);
    forall k ensures k in bins <==> k in ks {
      assert k in multiset(ks) <==> k in ks;
    }
    SetOfSeq(ks);
  }

  lemma {:induction false} SetOfSeq(ks: seq<int>)
    ensures |set k | k in ks| <= |ks|
  {
    if ks != [] {
      var init := ks[..|ks| - 1];
      SetOfSeq(init);
      assert (set k | k in ks) == (set k | k in init) + {ks[|ks| - 1]};
    }
  }

  // ---------------------------------------------------------------------------
  // Heuristic and format labels
  // ---------------------------------------------------------------------------

  /** The heuristic line of the report; the entropy is a parameter (its float
      logarithms are not modelled). */
  function Heuristic(colors: int, entropy: real): string
  {
    if colors <= 100 && entropy <= 7.5 then "Professional"
    else if colors <= 200 && entropy <= 8.5 then "Possibly Professional"
    else "Colorful/Organic"
  }

  /** How far a label is from "Professional". */
  function Rank(l: string): int
  {
    if l == "Professional" then 0 else if l == "Possibly Professional" then 1 else 2
  }

  /** Fewer colours and less entropy never give a less professional label. */
  lemma HeuristicMonotone(c1: int, e1: real, c2: int, e2: real)
    requires c1 <= c2 && e1 <= e2
    ensures Rank(Heuristic(c1, e1)) <= Rank(Heuristic(c2, e2))
  {
  }

  /** The three labels and the conditions that give them. */
  lemma HeuristicCases(colors: int, entropy: real)
    ensures Heuristic(colors, entropy) == "Professional" <==> colors <= 100 && entropy <= 7.5
    ensures Heuristic(colors, entropy) == "Possibly Professional" <==>
      !(colors <= 100 && entropy <= 7.5) && colors <= 200 && entropy <= 8.5
    ensures Heuristic(colors, entropy) == "Colorful/Organic" <==> colors > 200 || entropy > 8.5
  {
  }

  /** `name.split('.').pop()`. */
  function LastPart(name: string): string
  {
    var parts := Split(name, '.');
    parts[|parts| - 1]
  }

  /** The format line: the text after the last '.' upper-cased, or '—' when the name
      has no '.'. */
  function FormatLabel(name: string): string
  {
    if Includes(name, ".") then ToUpper(LastPart(name)) else "—"
  }

  /** A name `stem.ext` whose extension has no '.' is labelled with the upper-cased
      extension, whatever dots the stem holds. */
  lemma FormatOfExtension(stem: string, ext: string)
    requires forall j :: 0 <= j < |ext| ==> ext[j] != '.'
    ensures FormatLabel(stem + "." + ext) == ToUpper(ext)
  {
    var name := stem + "." + ext;
    IncludesAt(name, ".", |stem|);
    SplitLast(stem, ext, '.');
  }

  /** A name without '.' is labelled '—'. */
  lemma FormatWithoutDot(name: string)
    requires forall j :: 0 <= j < |name| ==> name[j] != '.'
    ensures FormatLabel(name) == "—"
  {
    NoDotExcluded(name);
  }

  lemma {:induction false} NoDotExcluded(s: string)
    requires forall j :: 0 <= j < |s| ==> s[j] != '.'
    ensures !Includes(s, ".")
    decreases |s|
  {
    if s != [] {
      assert s[..1] == [s[0]];
      NoDotExcluded(s[1..]);
    }
  }

  /** The last piece of a split is what follows the last separator. */
  lemma {:induction false} SplitLast(s: string, b: string, c: char)
    requires forall j :: 0 <= j < |b| ==> b[j] != c
    ensures var parts := Split(s + [c] + b, c); |parts| >= 2 && parts[|parts| - 1] == b
  {
    if s == [] {
      assert s + [c] + b == [c] + b;
      assert ([c] + b)[1..] == b;
      SplitPlain(b, c);
    } else {
      SplitLast(s[1..], b, c);
      assert (s + [c] + b)[1..] == s[1..] + [c] + b;
    }
  }
}
