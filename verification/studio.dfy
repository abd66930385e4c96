/**
 * The image studio in js/studio.js: the hex field of the colour-to-transparency
 * tool (`parseHexForStudio`), the tolerance field, the keying loop over the raw
 * RGBA bytes, the CSS filter string built from the adjustment sliders, the filter
 * preset buttons, the capped undo stack and the resize dimension rule.
 */
module Studio {
  import opened Js
  import opened Utils
  import opened Pixels

  // ---------------------------------------------------------------------------
  // parseHexForStudio
  // ---------------------------------------------------------------------------

  /** Every character written twice: `s.split('').map(ch => ch + ch).join('')`. */
  function Doubled(s: string): (r: string)
    ensures |r| == 2 * |s|
    ensures forall i :: 0 <= i < |s| ==> r[2 * i] == s[i] && r[2 * i + 1] == s[i]
  {
    if s == [] then [] else [s[0], s[0]] + Doubled(s[1..])
  }

  /** The text the studio tests: a '#' put in front when missing, then a 4-character
      text `#abc` expanded to `#aabbcc`. */
  function StudioText(h: string): string
    requires h != []
  {
    var s := if h[0] == '#' then h else "#" + h;
    if |s| == 4 then "#" + Doubled(s[1..]) else s
  }

  /** `/^#[0-9a-f]{6}$/i`. */
  predicate HexSix(s: string)
  {
    |s| == 7 && s[0] == '#' && AllDigits(s[1..], 16)
  }

  /** `parseInt(s.slice(i, i + 2), 16)` on two hex digits. */
  function HexPair(s: string, i: nat): (v: Byte)
    requires i + 2 <= |s| && AllDigits(s[i..i + 2], 16)
  {
    TwoDigitsBound(s[i..i + 2]);
    DigitsValue(s[i..i + 2], 16)
  }

  /** The colour of a `#rrggbb` text: the three two-digit pairs. */
  function ReadSix(s: string): (r: Option<Rgb>)
    ensures r.Some? <==> HexSix(s)
    ensures r.Some? ==> ValidRgb(r.value)
  {
    if HexSix(s) then
      assert s[1..3] == s[1..][..2] && s[3..5] == s[1..][2..4] && s[5..7] == s[1..][4..];
      Some(Rgb(HexPair(s, 1), HexPair(s, 3), HexPair(s, 5)))
    else None
  }

  /** `parseHexForStudio(h)`: None for the empty text or a text that is not `#` and
      six hex digits once prefixed and expanded. */
  function ParseHexForStudio(h: string): (r: Option<Rgb>)
    ensures r.Some? <==> h != [] && HexSix(StudioText(h))
    ensures r.Some? ==> ValidRgb(r.value)
  {
    if h == [] then None else ReadSix(StudioText(h))
  }

  /** For a text without surrounding whitespace, the studio's parser accepts the same
      texts as `hexToRgb` in js/utils.js and reads the same colour from them: an
      optional '#' then three digits (each doubled) or six digits. */
  lemma StudioAgrees(h: string)
    requires Trim(h) == h
    ensures ParseHexForStudio(h) == HexToRgb(h)
  {
    if h != [] {
      var u := StripHash(h);
      var s0 := if h[0] == '#' then h else "#" + h;
      assert s0 == "#" + u;
      assert HexToRgb(h) == HexDigitsToRgb(u);
      if |u| == 3 {
        assert s0[1..] == u;
        ShortAgrees(u);
      } else if |u| == 6 {
        LongAgrees(u);
      } else {
        assert StudioText(h) == s0;
      }
    }
  }

  /** `#abc` reads as `#aabbcc`, as `hexToRgb` reads `abc`. */
  lemma ShortAgrees(u: string)
    requires |u| == 3
    ensures ReadSix("#" + Doubled(u)) == HexDigitsToRgb(u)
  {
    var d := Doubled(u);
    var s := "#" + d;
    assert s[1..] == d;
    if AllDigits(u, 16) {
      DoubledDigit(u[0]);
      DoubledDigit(u[1]);
      DoubledDigit(u[2]);
      assert AllDigits(d, 16);
      assert s[1..3] == [u[0], u[0]] && s[3..5] == [u[1], u[1]] && s[5..7] == [u[2], u[2]];
    } else {
      var i :| 0 <= i < 3 && !IsDigit(u[i], 16);
      assert d[2 * i] == u[i];
    }
  }

  /** `#rrggbb` reads as `hexToRgb` reads `rrggbb`. */
  lemma LongAgrees(u: string)
    requires |u| == 6
    ensures ReadSix("#" + u) == HexDigitsToRgb(u)
  {
    var s := "#" + u;
    assert s[1..] == u;
    if AllDigits(u, 16) {
      HexDigitsLong(u);
      assert s[1..3] == u[..2] && s[3..5] == u[2..4] && s[5..7] == u[4..];
    }
  }

  /** A colour written by `rgbToHex` is read back by the studio's parser. */
  lemma StudioHexRoundTrip(c: Rgb)
    requires ValidRgb(c)
    ensures ParseHexForStudio(RgbToHex(c)) == Some(c)
  {
    var s := RgbToHex(c);
    HashTextTrimmed(s);
    StudioAgrees(s);
    HexRoundTrip(c);
  }

  lemma HashTextTrimmed(s: string)
    requires |s| == 7 && s[0] == '#' && IsLowerHex(s[6])
    ensures Trim(s) == s
  {
    TrimNoop(s);
  }

  // ---------------------------------------------------------------------------
  // Colour to transparency
  // ---------------------------------------------------------------------------

  /** `clamp(parseInt(field, 10) || 0, 0, 255)`. */
  function Tolerance(field: string): (t: int)
    ensures 0 <= t <= 255
    ensures ParseInt(field, 10).None? ==> t == 0
  {
    Clamp(OrElse(ParseInt(field, 10), 0), 0, 255)
  }

  /** A number typed in the field is taken as it is when it lies in 0..255 and is
      clamped otherwise. */
  lemma ToleranceOfNumber(n: int)
    ensures Tolerance(IntToString(n)) == Clamp(n, 0, 255)
    ensures 0 <= n <= 255 ==> Tolerance(IntToString(n)) == n
  {
    IntToStringRoundTrip(n, 10);
  }

  /** The squared RGB distance `dr² + dg² + db²` of a pixel from the target. */
  function Dist2(p: Px, c: Rgb): int
  {
    (p.r - c.r) * (p.r - c.r) + (p.g - c.g) * (p.g - c.g) + (p.b - c.b) * (p.b - c.b)
  }

  /** The pixel lies within Euclidean RGB distance tol of the target. */
  predicate Within(p: Px, c: Rgb, tol: int)
  {
    0 <= tol && Dist2(p, c) <= tol * tol
  }

  /** Within is the source's test `Math.sqrt(dr*dr + dg*dg + db*db) <= tol`: for the
      non-negative root of the squared distance. */
  lemma WithinIsEuclidean(p: Px, c: Rgb, tol: int, dist: real)
    requires dist >= 0.0 && dist * dist == Dist2(p, c) as real
    ensures Within(p, c, tol) <==> dist <= tol as real
  {
    RootCompare(Dist2(p, c) as real, dist, tol as real);
    assert (tol * tol) as real == (tol as real) * (tol as real);
  }

  /** What the keying loop makes of one pixel: transparent when it is within tol of
      the target, untouched otherwise. */
  function Keyed(p: Px, c: Rgb, tol: int): (q: Px)
    ensures q.r == p.r && q.g == p.g && q.b == p.b
    ensures q.a == if Within(p, c, tol) then 0 else p.a
  {
    if Within(p, c, tol) then p.(a := 0) else p
  }

  /** The exact target colour is always keyed out. */
  lemma TargetKeyed(p: Px, c: Rgb, tol: int)
    requires p.r == c.r && p.g == c.g && p.b == c.b && tol >= 0
    ensures Keyed(p, c, tol).a == 0
  {
  }

  /** The loop over the raw pixels: each pixel within tol of the target gets alpha 0. */
  method KeyOut(d: array<Byte>, n: nat, target: Rgb, tol: int)
    requires d.Length == 4 * n
    modifies d
    ensures Mapped(d[..], old(d[..]), p => Keyed(p, target, tol))
  {
    var i, k := 0, 0;
    while i < d.Length
      invariant i == 4 * k && 0 <= k <= n
      invariant forall q :: 0 <= q < k ==> PixelAt(d[..], q) == Keyed(PixelAt(old(d[..]), q), target, tol)
      invariant forall q :: k <= q < n ==> PixelAt(d[..], q) == PixelAt(old(d[..]), q)
    {
      ghost var before := d[..];
      // the distance test `sqrt(dr² + dg² + db²) <= tol`, see WithinIsEuclidean
      if Within(Px(d[i], d[i + 1], d[i + 2], d[i + 3]), target, tol) {
        d[i + 3] := 0;
      }
      assert PixelAt(d[..], k) == Keyed(PixelAt(before, k), target, tol);
      forall q | 0 <= q < n && q != k
        ensures PixelAt(d[..], q) == PixelAt(before, q)
      {
      }
      i, k := i + 4, k + 1;
    }
  }

  /** The colour-to-transparency button on the drawn image's bytes: an invalid hex
      text changes nothing; otherwise every pixel within the clamped tolerance of the
      target colour becomes transparent. */
  method ColorToTransparency(d: array<Byte>, n: nat, hexField: string, tolField: string)
    returns (target: Option<Rgb>)
    requires d.Length == 4 * n
    modifies d
    ensures target == ParseHexForStudio(ToLower(Trim(hexField)))
    ensures target.None? ==> d[..] == old(d[..])
    ensures target.Some? ==> Mapped(d[..], old(d[..]), p => Keyed(p, target.value, Tolerance(tolField)))
  {
    var hex := ToLower(Trim(hexField));
    target := ParseHexForStudio(hex);
    if target.None? {
      return;
    }
    var tol := Clamp(OrElse(ParseInt(tolField, 10), 0), 0, 255);
    KeyOut(d, n, target.value, tol);
  }

  // ---------------------------------------------------------------------------
  // Adjustments, the filter string and the filter presets
  // ---------------------------------------------------------------------------

  /** The values of the five sliders. */
  datatype Adj = Adj(bright: int, contrast: int, sat: int, hue: int, blur: int)

  /** A CSS filter function applied to a formatted number with its unit, such as
      `blur(3px)`. */
  function Wrap(pre: string, num: string, post: string): string
  {
    pre + num + post
  }

  /** The five candidate filter functions for the slider values; the blur entry is ''
      unless blur > 0. */
  function Entries(bright: int, contrast: int, sat: int, hue: int, blur: int): seq<string>
  {
    [Wrap("brightness(", IntToString(100 + bright), "%)"),
     Wrap("contrast(", IntToString(100 + contrast), "%)"),
     Wrap("saturate(", IntToString(100 + sat), "%)"),
     Wrap("hue-rotate(", IntToString(hue), "deg)"),
     if blur > 0 then Wrap("blur(", IntToString(blur), "px)") else ""]
  }

  /** `makeFilter()`: the non-empty entries joined by spaces. */
  function MakeFilter(a: Adj): string
  {
    Join(NonEmpty(Entries(a.bright, a.contrast, a.sat, a.hue, a.blur)), " ")
  }

  /** The `adj` object behind the sliders. */
  class Adjustments {
    var bright: int
    var contrast: int
    var sat: int
    var hue: int
    var blur: int

    constructor()
      ensures bright == 0 && contrast == 0 && sat == 0 && hue == 0 && blur == 0
    {
      bright, contrast, sat, hue, blur := 0, 0, 0, 0, 0;
    }

    /** The current slider values. */
    function Value(): Adj
      reads this
    {
      Adj(bright, contrast, sat, hue, blur)
    }

    /** The preset buttons: grayscale, sepia, invert and sharpen each set their
        fields; any other name leaves the adjustments as they are. */
    method ApplyPreset(name: string)
      modifies this
      ensures name == "grayscale" ==> sat == -100 && hue == 0 && bright == old(bright) && contrast == old(contrast) && blur == old(blur)
      ensures name == "sepia" ==> sat == 10 && hue == 18 && bright == old(bright) && contrast == old(contrast) && blur == old(blur)
      ensures name == "invert" ==> hue == 180 && sat == old(sat) && bright == old(bright) && contrast == old(contrast) && blur == old(blur)
      ensures name == "sharpen" ==> contrast == 20 && sat == old(sat) && hue == old(hue) && bright == old(bright) && blur == old(blur)
      ensures name !in {"grayscale", "sepia", "invert", "sharpen"} ==>
        bright == old(bright) && contrast == old(contrast) && sat == old(sat) && hue == old(hue) && blur == old(blur)
    {
      if name == "grayscale" { sat := -100; hue := 0; }
      if name == "sepia" { sat := 10; hue := 18; }
      if name == "invert" { hue := 180; }
      if name == "sharpen" { contrast := 20; }
    }

    /** The clear button (and reset): every adjustment back to 0. */
    method Clear()
      modifies this
      ensures bright == 0 && contrast == 0 && sat == 0 && hue == 0 && blur == 0
    {
      bright, contrast, sat, hue, blur := 0, 0, 0, 0, 0;
    }
  }

  /** `.filter(Boolean)` on strings: the empty ones dropped, order kept. */
  function NonEmpty(xs: seq<string>): (r: seq<string>)
    ensures |r| <= |xs|
    ensures forall i :: 0 <= i < |r| ==> |r[i]| > 0
  {
    if |xs| == 0 then []
    else if |xs[0]| == 0 then NonEmpty(xs[1..])
    else [xs[0]] + NonEmpty(xs[1..])
  }

  /** A formatted integer holds no space. */
  lemma IntToStringNoSpace(i: int)
    ensures forall j :: 0 <= j < |IntToString(i)| ==> IntToString(i)[j] != ' '
  {
    var s := IntToString(i);
    if i < 0 {
      forall j | 1 <= j < |s| ensures s[j] != ' ' {
        assert s[j] == NatToDigits(-i, 10)[j - 1];
      }
    }
  }

  /** The filter string splits back into exactly its functions: brightness, contrast
      and saturate as `100 + adj` percent and hue-rotate always, then blur only when
      it is positive. */
  lemma FilterSplits(a: Adj)
    ensures var parts := Split(MakeFilter(a), ' ');
      |parts| == (if a.blur > 0 then 5 else 4) &&
      parts[0] == Wrap("brightness(", IntToString(100 + a.bright), "%)") &&
      parts[1] == Wrap("contrast(", IntToString(100 + a.contrast), "%)") &&
      parts[2] == Wrap("saturate(", IntToString(100 + a.sat), "%)") &&
      parts[3] == Wrap("hue-rotate(", IntToString(a.hue), "deg)") &&
      (a.blur > 0 ==> parts[4] == Wrap("blur(", IntToString(a.blur), "px)"))
  {
    FilterSplitsEntries(a.bright, a.contrast, a.sat, a.hue, a.blur);
  }

  lemma FilterSplitsEntries(bright: int, contrast: int, sat: int, hue: int, blur: int)
    ensures var es := Entries(bright, contrast, sat, hue, blur);
      Split(Join(NonEmpty(es), " "), ' ') == es[..4] + (if blur > 0 then [es[4]] else [])
  {
    var es := Entries(bright, contrast, sat, hue, blur);
    EntriesSpaceless(bright, contrast, sat, hue, blur);
    EntriesShape(bright, contrast, sat, hue, blur);
    SplitKept(es);
  }

  /** Four entries are always present and the blur entry is present exactly when
      blur is positive. */
  lemma EntriesShape(bright: int, contrast: int, sat: int, hue: int, blur: int)
    ensures var es := Entries(bright, contrast, sat, hue, blur);
      |es| == 5 && |es[0]| > 0 && |es[1]| > 0 && |es[2]| > 0 && |es[3]| > 0 && (|es[4]| == 0 <==> blur <= 0)
  {
    Wrapped("brightness(", IntToString(100 + bright), "%)");
    Wrapped("contrast(", IntToString(100 + contrast), "%)");
    Wrapped("saturate(", IntToString(100 + sat), "%)");
    Wrapped("hue-rotate(", IntToString(hue), "deg)");
    Wrapped("blur(", IntToString(blur), "px)");
  }

  lemma Wrapped(pre: string, num: string, post: string)
    requires |pre| > 0
    ensures |Wrap(pre, num, post)| > 0
  {
  }

  /** Joining the non-empty texts among five space-free ones, the first four of them
      non-empty, and splitting again gives those texts back. */
  lemma SplitKept(es: seq<string>)
    requires |es| == 5 && |es[0]| > 0 && |es[1]| > 0 && |es[2]| > 0 && |es[3]| > 0
    requires forall i, j :: 0 <= i < |es| && 0 <= j < |es[i]| ==> es[i][j] != ' '
    ensures Split(Join(NonEmpty(es), " "), ' ') == es[..4] + (if |es[4]| == 0 then [] else [es[4]])
  {
    NonEmptyFront(es);
    var kept := NonEmpty(es);
    forall i, j | 0 <= i < |kept| && 0 <= j < |kept[i]| ensures kept[i][j] != ' ' {
      assert kept[i] == es[i];
    }
    SplitJoin(kept, ' ');
  }

  lemma EntriesSpaceless(bright: int, contrast: int, sat: int, hue: int, blur: int)
    ensures var es := Entries(bright, contrast, sat, hue, blur);
      forall i, j :: 0 <= i < |es| && 0 <= j < |es[i]| ==> es[i][j] != ' '
  {
    Literals();
    WrapSpaceless("brightness(", 100 + bright, "%)");
    WrapSpaceless("contrast(", 100 + contrast, "%)");
    WrapSpaceless("saturate(", 100 + sat, "%)");
    WrapSpaceless("hue-rotate(", hue, "deg)");
    WrapSpaceless("blur(", blur, "px)");
    FiveSpaceless(Wrap("brightness(", IntToString(100 + bright), "%)"),
                  Wrap("contrast(", IntToString(100 + contrast), "%)"),
                  Wrap("saturate(", IntToString(100 + sat), "%)"),
                  Wrap("hue-rotate(", IntToString(hue), "deg)"),
                  Wrap("blur(", IntToString(blur), "px)"), blur > 0);
  }

  lemma Literals()
    ensures NoSpace("brightness(") && NoSpace("contrast(") && NoSpace("saturate(")
    ensures NoSpace("hue-rotate(") && NoSpace("blur(")
    ensures NoSpace("%)") && NoSpace("deg)") && NoSpace("px)")
  {
  }

  /** Five space-free texts, the last one possibly blanked, hold no space. */
  lemma FiveSpaceless(w0: string, w1: string, w2: string, w3: string, w4: string, on: bool)
    requires NoSpace(w0) && NoSpace(w1) && NoSpace(w2) && NoSpace(w3) && NoSpace(w4)
    ensures var es := [w0, w1, w2, w3, if on then w4 else ""];
      forall i, j :: 0 <= i < |es| && 0 <= j < |es[i]| ==> es[i][j] != ' '
  {
    var es := [w0, w1, w2, w3, if on then w4 else ""];
    assert forall i :: 0 <= i < |es| ==> NoSpace(es[i]);
  }

  predicate NoSpace(s: string)
  {
    forall j :: 0 <= j < |s| ==> s[j] != ' '
  }

  /** A number between two space-free texts leaves no space. */
  lemma WrapSpaceless(pre: string, x: int, post: string)
    requires NoSpace(pre) && NoSpace(post)
    ensures NoSpace(Wrap(pre, IntToString(x), post))
  {
    IntToStringNoSpace(x);
    Spaceless(pre, IntToString(x), post);
  }

  /** The four filter functions that are always there stay; the last entry stays
      when it is not empty. */
  lemma NonEmptyFront(xs: seq<string>)
    requires |xs| == 5 && |xs[0]| > 0 && |xs[1]| > 0 && |xs[2]| > 0 && |xs[3]| > 0
    ensures NonEmpty(xs) == xs[..4] + (if |xs[4]| == 0 then [] else [xs[4]])
  {
    var t1, t2, t3, t4 := xs[1..], xs[2..], xs[3..], xs[4..];
    assert t1[1..] == t2 && t2[1..] == t3 && t3[1..] == t4 && t4[1..] == [];
    assert NonEmpty(t4) == (if |xs[4]| == 0 then [] else [xs[4]]);
    assert NonEmpty(t3) == [xs[3]] + NonEmpty(t4);
    assert NonEmpty(t2) == [xs[2]] + NonEmpty(t3);
    assert NonEmpty(t1) == [xs[1]] + NonEmpty(t2);
    assert NonEmpty(xs) == [xs[0]] + NonEmpty(t1);
    assert xs[..4] == [xs[0], xs[1], xs[2], xs[3]];
  }

  /** A number between two space-free texts gives a space-free text. */
  lemma Spaceless(pre: string, num: string, post: string)
    requires forall j :: 0 <= j < |pre| ==> pre[j] != ' '
    requires forall j :: 0 <= j < |num| ==> num[j] != ' '
    requires forall j :: 0 <= j < |post| ==> post[j] != ' '
    ensures var t := Wrap(pre, num, post); forall j :: 0 <= j < |t| ==> t[j] != ' '
  {
  }

  // ---------------------------------------------------------------------------
  // Undo stack
  // ---------------------------------------------------------------------------

  /** At most this many snapshots are kept. */
  const UndoLimit := 30

  /** Push then `shift()` when the stack grew past the limit. */
  function Capped<C>(s: seq<C>): (r: seq<C>)
  {
    if |s| > UndoLimit then s[1..] else s
  }

  /** The last min(n, |s|) elements of s. */
  function Latest<C>(s: seq<C>, n: nat): (r: seq<C>)
    ensures |r| == Min(|s|, n)
  {
    if |s| <= n then s else s[|s| - n..]
  }

  /** The stack after one `saveUndo` per element of xs, in order. */
  function Saves<C>(st: seq<C>, xs: seq<C>): seq<C>
    decreases |xs|
  {
    if xs == [] then st else Saves(Capped(st + [xs[0]]), xs[1..])
  }

  /** Starting from a stack within the limit, any run of saves leaves exactly the 30
      most recent snapshots: the oldest are dropped first. */
  lemma {:induction false} SavesKeepLatest<C>(st: seq<C>, xs: seq<C>)
    requires |st| <= UndoLimit
    ensures Saves(st, xs) == Latest(st + xs, UndoLimit)
    decreases |xs|
  {
    if xs != [] {
      var st' := Capped(st + [xs[0]]);
      assert |st'| <= UndoLimit;
      SavesKeepLatest(st', xs[1..]);
      LatestStep(st, xs[0], xs[1..]);
      assert st + xs == st + [xs[0]] + xs[1..];
    }
  }

  lemma LatestStep<C>(st: seq<C>, x: C, rest: seq<C>)
    requires |st| <= UndoLimit
    ensures Latest(Capped(st + [x]) + rest, UndoLimit) == Latest(st + [x] + rest, UndoLimit)
  {
    var s := st + [x];
    if |s| > UndoLimit {
      assert s[1..] + rest == (s + rest)[1..];
    }
  }

  /** `undoStack` with the `saveUndo` push. */
  class UndoStack<C> {
    var items: seq<C>

    constructor()
      ensures items == []
    {
      items := [];
    }

    /** `saveUndo()`: nothing without an image; otherwise the snapshot is pushed and
        the oldest entry dropped when there are more than 30. */
    method Save(img: Option<C>)
      modifies this
      ensures img.None? ==> items == old(items)
      ensures img.Some? ==> items == Capped(old(items) + [img.value])
      ensures |old(items)| <= UndoLimit ==> |items| <= UndoLimit
    {
      if img.None? {
        return;
      }
      items := items + [img.value];
      if |items| > UndoLimit {
        items := items[1..];
      }
    }

    /** Loading a file empties the stack (`undoStack.length = 0`). */
    method Clear()
      modifies this
      ensures items == []
    {
      items := [];
    }
  }

  // ---------------------------------------------------------------------------
  // Resize
  // ---------------------------------------------------------------------------

  /** `Math.max(1, parseInt(field, 10) || current)`. */
  function ResizeDim(field: string, current: int): (r: int)
    ensures r >= 1
    ensures ParseInt(field, 10).None? ==> r == Max(1, current)
  {
    Max(1, OrElse(ParseInt(field, 10), current))
  }

  /** A typed size is used as it is when positive; 0 falls back to the image's own
      dimension and a negative size gives 1. */
  lemma ResizeDimTyped(n: int, current: int)
    ensures n >= 1 ==> ResizeDim(IntToString(n), current) == n
    ensures n == 0 ==> ResizeDim(IntToString(n), current) == Max(1, current)
    ensures n < 0 ==> ResizeDim(IntToString(n), current) == 1
  {
    IntToStringRoundTrip(n, 10);
  }
}
