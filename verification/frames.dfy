/**
 * The frame overlay tool in js/frames.js: the two pixel loops (`recolorWhiteish` on
 * the frame, `makeColorTransparent` on the base), the key and target fields that
 * drive them, and the overlay arithmetic of `render` and `syncFrameHeightFromWidth`
 * (frame height from the frame's natural aspect, scaled size, centred offset,
 * opacity).
 *
 * Image sizes and field values are integers; the source's float quotients are
 * stated exactly as rationals, so `Math.round(a / b)` becomes `RoundDiv(a, b)`.
 * Where the double falls just below an exact half, the browser rounds down and
 * `RoundDiv` rounds up, so a height or a scaled size can be one pixel larger here.
 */
module Frames {
  import opened Js
  import opened Utils
  import opened Pixels
  import Studio

  // ---------------------------------------------------------------------------
  // recolorWhiteish
  // ---------------------------------------------------------------------------

  /** Near-white: every channel above 220 and every two channels less than 8 apart. */
  predicate Whiteish(p: Px)
  {
    p.r > 220 && p.g > 220 && p.b > 220 &&
    Abs(p.r - p.g) < 8 && Abs(p.r - p.b) < 8 && Abs(p.g - p.b) < 8
  }

  function Min3(a: int, b: int, c: int): int
  {
    Min(a, Min(b, c))
  }

  function Max3(a: int, b: int, c: int): int
  {
    Max(a, Max(b, c))
  }

  /** Near-white is a band: the darkest channel above 220 and a spread between the
      darkest and the brightest channel below 8. */
  lemma WhiteishBand(p: Px)
    ensures Whiteish(p) <==> Min3(p.r, p.g, p.b) > 220 && Max3(p.r, p.g, p.b) - Min3(p.r, p.g, p.b) < 8
  {
  }

  /** What the loop makes of one frame pixel: a near-white pixel takes the target's
      colour (stored as clamped bytes) and keeps its alpha; any other pixel is kept. */
  function Recolored(p: Px, tgt: Rgb): (q: Px)
    ensures q.a == p.a
    ensures !Whiteish(p) ==> q == p
    ensures Whiteish(p) ==> q.r == ClampByte(tgt.r) && q.g == ClampByte(tgt.g) && q.b == ClampByte(tgt.b)
  {
    if Whiteish(p) then Px(ClampByte(tgt.r), ClampByte(tgt.g), ClampByte(tgt.b), p.a) else p
  }

  /** Recolouring twice with the same target is recolouring once. */
  lemma RecoloredIdempotent(p: Px, tgt: Rgb)
    ensures Recolored(Recolored(p, tgt), tgt) == Recolored(p, tgt)
  {
  }

  /** `recolorWhiteish(imgData, tgt)` over the n pixels of the frame. */
  method RecolorWhiteish(d: array<Byte>, n: nat, tgt: Rgb)
    requires d.Length == 4 * n
    modifies d
    ensures Mapped(d[..], old(d[..]), p => Recolored(p, tgt))
  {
    var i, k := 0, 0;
    while i < d.Length
      invariant i == 4 * k && 0 <= k <= n
      invariant forall q :: 0 <= q < k ==> PixelAt(d[..], q) == Recolored(PixelAt(old(d[..]), q), tgt)
      invariant forall q :: k <= q < n ==> PixelAt(d[..], q) == PixelAt(old(d[..]), q)
    {
      ghost var before := d[..];
      var r: int, g: int, b: int := d[i], d[i + 1], d[i + 2];
      if r > 220 && g > 220 && b > 220 && Abs(r - g) < 8 && Abs(r - b) < 8 && Abs(g - b) < 8 {
        d[i] := ClampByte(tgt.r);
        d[i + 1] := ClampByte(tgt.g);
        d[i + 2] := ClampByte(tgt.b);
      }
      assert PixelAt(d[..], k) == Recolored(PixelAt(before, k), tgt);
      forall q | 0 <= q < n && q != k
        ensures PixelAt(d[..], q) == PixelAt(before, q)
      {
      }
      i, k := i + 4, k + 1;
    }
  }

  // ---------------------------------------------------------------------------
  // makeColorTransparent
  // ---------------------------------------------------------------------------

  /** What the loop makes of one base pixel: transparent on an exact colour match. */
  function KeyedExact(p: Px, key: Rgb): (q: Px)
    ensures q.r == p.r && q.g == p.g && q.b == p.b
    ensures q.a == if p.r == key.r && p.g == key.g && p.b == key.b then 0 else p.a
  {
    if p.r == key.r && p.g == key.g && p.b == key.b then p.(a := 0) else p
  }

  /** Exact keying is the studio's colour-to-transparency test with tolerance 0. */
  lemma ExactIsZeroTolerance(p: Px, key: Rgb)
    ensures KeyedExact(p, key) == Studio.Keyed(p, key, 0)
  {
    var dr, dg, db := p.r - key.r, p.g - key.g, p.b - key.b;
    if dr != 0 || dg != 0 || db != 0 {
      assert dr * dr > 0 || dg * dg > 0 || db * db > 0;
      assert !Studio.Within(p, key, 0);
    }
  }

  /** `makeColorTransparent(imgData, key)` over the n pixels of the base. */
  method MakeColorTransparent(d: array<Byte>, n: nat, key: Rgb)
    requires d.Length == 4 * n
    modifies d
    ensures Mapped(d[..], old(d[..]), p => KeyedExact(p, key))
  {
    var i, k := 0, 0;
    while i < d.Length
      invariant i == 4 * k && 0 <= k <= n
      invariant forall q :: 0 <= q < k ==> PixelAt(d[..], q) == KeyedExact(PixelAt(old(d[..]), q), key)
      invariant forall q :: k <= q < n ==> PixelAt(d[..], q) == PixelAt(old(d[..]), q)
    {
      ghost var before := d[..];
      if d[i] == key.r && d[i + 1] == key.g && d[i + 2] == key.b {
        d[i + 3] := 0;
      }
      assert PixelAt(d[..], k) == KeyedExact(PixelAt(before, k), key);
      forall q | 0 <= q < n && q != k
        ensures PixelAt(d[..], q) == PixelAt(before, q)
      {
      }
      i, k := i + 4, k + 1;
    }
  }

  // ---------------------------------------------------------------------------
  // The colour fields and the two pixel passes of render
  // ---------------------------------------------------------------------------

  /** A colour from three fields, each `parseInt(field, 10) || 0` (not clamped). */
  function FieldColour(r: string, g: string, b: string): Rgb
  {
    Rgb(OrElse(ParseInt(r, 10), 0), OrElse(ParseInt(g, 10), 0), OrElse(ParseInt(b, 10), 0))
  }

  /** The base keying in `render`: with the key fields all 0 or empty nothing is
      keyed, so black can never be keyed out; otherwise exact matches of the key
      become transparent. */
  method KeyBase(d: array<Byte>, n: nat, kr: string, kg: string, kb: string)
    requires d.Length == 4 * n
    modifies d
    ensures FieldColour(kr, kg, kb) == Rgb(0, 0, 0) ==> d[..] == old(d[..])
    ensures FieldColour(kr, kg, kb) != Rgb(0, 0, 0) ==> Mapped(d[..], old(d[..]), p => KeyedExact(p, FieldColour(kr, kg, kb)))
  {
    var key := FieldColour(kr, kg, kb);
    if key.r != 0 || key.g != 0 || key.b != 0 {
      MakeColorTransparent(d, n, key);
    }
  }

  /** The frame recolouring in `render`: only when the box is checked. */
  method RecolorFrame(d: array<Byte>, n: nat, checked: bool, r: string, g: string, b: string)
    requires d.Length == 4 * n
    modifies d
    ensures !checked ==> d[..] == old(d[..])
    ensures checked ==> Mapped(d[..], old(d[..]), p => Recolored(p, FieldColour(r, g, b)))
  {
    if checked {
      var target := FieldColour(r, g, b);
      RecolorWhiteish(d, n, target);
    }
  }

  /** A key with a channel outside 0..255 matches no pixel. */
  lemma KeyOutOfRange(p: Px, key: Rgb)
    requires !ValidRgb(key)
    ensures KeyedExact(p, key) == p
  {
  }

  // ---------------------------------------------------------------------------
  // Overlay arithmetic
  // ---------------------------------------------------------------------------

  /** The overlay width from the W field: `parseInt(w, 10) || naturalWidth`. */
  function InputWidth(wField: string, nw: int): int
  {
    OrElse(ParseInt(wField, 10), nw)
  }

  /** `Math.max(1, Math.round(w / (nw / nh)))`: the height that keeps the frame's
      natural aspect at width w. */
  function FrameHeight(w: int, nw: int, nh: int): (r: int)
    requires nw > 0 && nh > 0
    ensures r >= 1
  {
    Max(1, RoundDiv(w * nh, nw))
  }

  /** The height is the nearest whole number to `w * nh / nw` whenever that is at
      least one half: within half a pixel of the frame's aspect. */
  lemma FrameHeightAspect(w: int, nw: int, nh: int)
    requires nw > 0 && nh > 0 && 2 * w * nh >= nw
    ensures var r := FrameHeight(w, nw, nh);
      2 * r * nw - nw <= 2 * w * nh < 2 * r * nw + nw
  {
    var q := RoundDiv(w * nh, nw);
    assert 2 * nw * q <= 2 * (w * nh) + nw < 2 * nw * q + 2 * nw;
    if q < 1 {
      MulMonotone(2 * nw, q + 1, 1);
      assert false;
    }
  }

  /** At the frame's natural width the height is its natural height. */
  lemma FrameHeightNatural(nw: int, nh: int)
    requires nw > 0 && nh > 0
    ensures FrameHeight(nw, nw, nh) == nh
  {
    var q := RoundDiv(nw * nh, nw);
    assert 2 * nw * q <= 2 * (nw * nh) + nw < 2 * nw * q + 2 * nw;
    if q < nh {
      MulMonotone(2 * nw, q + 1, nh);
      assert false;
    }
    if q > nh {
      MulMonotone(2 * nw, nh + 1, q);
      assert false;
    }
  }

  /** The scale percentage: `parseInt(s, 10) || 33`. */
  function ScalePercent(sField: string): int
  {
    OrElse(ParseInt(sField, 10), 33)
  }

  /** `Math.max(1, Math.round(size * percent / 100))`. */
  function Scaled(size: int, percent: int): (r: int)
    ensures r >= 1
  {
    Max(1, RoundDiv(size * percent, 100))
  }

  /** At 100% a positive size is kept. */
  lemma ScaledFull(size: int)
    requires size >= 1
    ensures Scaled(size, 100) == size
  {
    var q := RoundDiv(size * 100, 100);
    assert 200 * q <= 200 * size + 100 < 200 * q + 200;
  }

  /** The overlay offset on one axis: `Math.round((canvas - f) / 2) + (parseInt(x, 10) || 0)`. */
  function Offset(canvas: int, f: int, xField: string): int
  {
    RoundDiv(canvas - f, 2) + OrElse(ParseInt(xField, 10), 0)
  }

  /** With no typed offset the overlay is centred, the odd pixel going to the near
      side: `2 * offset + f` is the canvas size or one more. */
  lemma OffsetCentred(canvas: int, f: int)
    ensures canvas <= 2 * Offset(canvas, f, "") + f <= canvas + 1
  {
    var q := RoundDiv(canvas - f, 2);
    assert 4 * q <= 2 * (canvas - f) + 2 < 4 * q + 4;
  }

  /** A typed offset shifts the centred position by exactly that many pixels. */
  lemma OffsetShifts(canvas: int, f: int, x: int)
    ensures Offset(canvas, f, IntToString(x)) == Offset(canvas, f, "") + x
  {
    IntToStringRoundTrip(x, 10);
  }

  /** `clamp((parseInt(op, 10) || 33) / 100, 0, 1)`. */
  function Opacity(opField: string): (r: real)
    ensures 0.0 <= r <= 1.0
    ensures ParseInt(opField, 10).None? ==> r == 0.33
  {
    var v := OrElse(ParseInt(opField, 10), 33) as real / 100.0;
    if v < 0.0 then 0.0 else if v > 1.0 then 1.0 else v
  }

  /** Where and how the frame is drawn over the base. */
  datatype Overlay = Overlay(inputW: int, inputH: int, fw: int, fh: int, dx: int, dy: int, alpha: real)

  /** The overlay block of `render` for a canvas of cw×ch and a frame of natural size
      nw×nh, from the W, S, X, Y and opacity fields. */
  function Layout(wField: string, sField: string, xField: string, yField: string, opField: string,
                  cw: int, ch: int, nw: int, nh: int): (o: Overlay)
    requires nw > 0 && nh > 0
    ensures o.inputH >= 1 && o.fw >= 1 && o.fh >= 1 && 0.0 <= o.alpha <= 1.0
  {
    var inputW := InputWidth(wField, nw);
    var inputH := FrameHeight(inputW, nw, nh);
    var pct := ScalePercent(sField);
    var fw := Scaled(inputW, pct);
    var fh := Scaled(inputH, pct);
    Overlay(inputW, inputH, fw, fh, Offset(cw, fw, xField), Offset(ch, fh, yField), Opacity(opField))
  }

  /** With the fields left empty the frame is drawn at its natural width, at the
      height of its natural aspect, scaled to 33%, centred, at opacity 0.33. */
  lemma LayoutDefaults(cw: int, ch: int, nw: int, nh: int)
    requires nw > 0 && nh > 0
    ensures var o := Layout("", "", "", "", "", cw, ch, nw, nh);
      o.inputW == nw && o.inputH == nh && o.fw == Scaled(nw, 33) && o.fh == Scaled(nh, 33) &&
      cw <= 2 * o.dx + o.fw <= cw + 1 && ch <= 2 * o.dy + o.fh <= ch + 1 && o.alpha == 0.33
  {
    FrameHeightNatural(nw, nh);
    var o := Layout("", "", "", "", "", cw, ch, nw, nh);
    OffsetCentred(cw, o.fw);
    OffsetCentred(ch, o.fh);
  }
}
