/**
 * `removeBackgroundFromImage` in js/bgremove.js: its options and their defaults, the
 * five steps over the RGBA bytes of the drawn image (border colour, flood-filled
 * mask, morphology, small-island removal, alpha), and the debug mask image.
 *
 * Drawing to and reading from a canvas, and the feathering blur, happen in the
 * browser; the model starts from the image's RGBA bytes and ends with them.
 */
module BgRemove {
  import opened Js
  import opened BgGrid
  import opened BgBorder
  import opened BgFill
  import opened BgMorph
  import opened BgArtifacts
  import opened Pixels

  /** The `opts` object: a field left undefined takes its default. */
  datatype Options = Options(
    threshold: Option<real>, feather: Option<int>, borderSize: Option<int>,
    morphPasses: Option<int>, smallArtifactPx: Option<int>, debug: Option<bool>)

  /** The options after destructuring. */
  datatype Settings = Settings(
    threshold: real, feather: int, borderSize: int,
    morphPasses: int, smallArtifactPx: int, debug: bool)

  function Or<T>(o: Option<T>, d: T): T
  {
    if o.Some? then o.value else d
  }

  /** Destructuring `opts` with its defaults. */
  function Resolve(o: Options): (s: Settings)
  {
    Settings(Or(o.threshold, 28.0), Or(o.feather, 2), Or(o.borderSize, 4),
             Or(o.morphPasses, 1), Or(o.smallArtifactPx, 0), Or(o.debug, false))
  }

  /** Called without options, the remover uses ΔE 28, a 2px feather, a 4px border,
      one morphology cycle, no island removal and no debug image; a given field is
      used as given. */
  lemma ResolveSpec(o: Options)
    ensures Resolve(Options(None, None, None, None, None, None)) == Settings(28.0, 2, 4, 1, 0, false)
    ensures o.threshold.Some? ==> Resolve(o).threshold == o.threshold.value
    ensures o.borderSize.Some? ==> Resolve(o).borderSize == o.borderSize.value
    ensures o.morphPasses.Some? ==> Resolve(o).morphPasses == o.morphPasses.value
    ensures o.smallArtifactPx.Some? ==> Resolve(o).smallArtifactPx == o.smallArtifactPx.value
  {
  }

  // ---------------------------------------------------------------------------
  // Step 5 and the debug image
  // ---------------------------------------------------------------------------

  /** `d` is `d0` with the alpha of pixel p set to mask value p. */
  predicate AlphaFrom(d: seq<Byte>, d0: seq<Byte>, mask: seq<int>)
  {
    |d| == |d0| == 4 * |mask| &&
    forall p :: 0 <= p < |mask| ==> PixelAt(d, p) == PixelAt(d0, p).(a := ClampByte(mask[p]))
  }

  /** `img` shows mask value p as the grey pixel `(v, v, v, 255)`. */
  predicate Grey(img: seq<Byte>, mask: seq<int>)
  {
    |img| == 4 * |mask| &&
    forall p :: 0 <= p < |mask| ==> var v := ClampByte(mask[p]); PixelAt(img, p) == Px(v, v, v, 255)
  }

  /** Step 5: the mask becomes the alpha channel; colour bytes stay as they were. */
  method ApplyAlpha(data: array<Byte>, mask: array<int>)
    requires data.Length == 4 * mask.Length
    modifies data
    ensures AlphaFrom(data[..], old(data[..]), mask[..])
  {
    var i, p := 0, 0;
    while i < data.Length
      invariant i == 4 * p && 0 <= p <= mask.Length
      invariant forall q :: 0 <= q < p ==>
        PixelAt(data[..], q) == PixelAt(old(data[..]), q).(a := ClampByte(mask[q]))
      invariant forall q :: p <= q < mask.Length ==> PixelAt(data[..], q) == PixelAt(old(data[..]), q)
    {
      ghost var before := data[..];
      data[i + 3] := ClampByte(mask[p]);
      forall q | 0 <= q < mask.Length && q != p
        ensures PixelAt(data[..], q) == PixelAt(before, q)
      {
      }
      i, p := i + 4, p + 1;
    }
  }

  /** The debug image: pixel p is the grey `(v, v, v, 255)` with v the mask value. */
  method MaskImage(mask: array<int>, w: nat, h: nat) returns (img: array<Byte>)
    requires mask.Length == w * h
    ensures fresh(img) && Grey(img[..], mask[..])
  {
    img := new Byte[4 * (w * h)](_ => 0);
    var i, p := 0, 0;
    while i < img.Length
      invariant i == 4 * p && 0 <= p <= w * h
      invariant forall q :: 0 <= q < p ==>
        var v := ClampByte(mask[q]); PixelAt(img[..], q) == Px(v, v, v, 255)
    {
      ghost var before := img[..];
      var v := ClampByte(mask[p]);
      img[i] := v;
      img[i + 1] := v;
      img[i + 2] := v;
      img[i + 3] := 255;
      forall q | 0 <= q < p
        ensures PixelAt(img[..], q) == PixelAt(before, q)
      {
      }
      i, p := i + 4, p + 1;
    }
  }

  // ---------------------------------------------------------------------------
  // The whole remover
  // ---------------------------------------------------------------------------

  /** The background colour: the median Lab colour of the border ring. */
  function Background(data: seq<Byte>, w: nat, h: nat, s: Settings, m: LabMath): Lab
    requires |data| == 4 * (w * h)
  {
    BackgroundLab(Labs(data, BorderCells(w, h, s.borderSize), m), m)
  }

  /** The mask after steps 1 to 4, as a function of the image. */
  ghost function FinalMask(data: seq<Byte>, w: nat, h: nat, s: Settings, m: LabMath): (r: seq<int>)
    requires |data| == 4 * (w * h)
    ensures |r| == w * h
  {
    var isBg := Classify(data, w, h, Background(data, w, h, s, m), s.threshold, m);
    Cleaned(Cycles(Threshold(isBg), w, h, Max(s.morphPasses, 0)), w, h, s.smallArtifactPx)
  }

  /** The final mask is 0 or 255 everywhere, so the alpha the image gets is the mask
      itself. */
  lemma FinalBinary(data: seq<Byte>, w: nat, h: nat, s: Settings, m: LabMath)
    requires |data| == 4 * (w * h)
    ensures Binary(FinalMask(data, w, h, s, m))
  {
    var isBg := Classify(data, w, h, Background(data, w, h, s, m), s.threshold, m);
    var t := Threshold(isBg);
    assert Binary(t);
    CyclesSpec(t, w, h, Max(s.morphPasses, 0));
    CleanedBinary(Cycles(t, w, h, Max(s.morphPasses, 0)), w, h, s.smallArtifactPx);
  }

  /** With at least one morphology cycle the outermost ring of pixels is transparent,
      whatever the image. */
  lemma FinalRing(data: seq<Byte>, w: nat, h: nat, s: Settings, m: LabMath, x: int, y: int)
    requires |data| == 4 * (w * h) && s.morphPasses >= 1
    requires InGrid(x, y, w, h) && (x == 0 || y == 0 || x == w - 1 || y == h - 1)
    ensures 0 <= Idx(x, y, w) < w * h && FinalMask(data, w, h, s, m)[Idx(x, y, w)] == BG
  {
    var isBg := Classify(data, w, h, Background(data, w, h, s, m), s.threshold, m);
    var t := Threshold(isBg);
    assert Binary(t);
    CyclesSpec(t, w, h, s.morphPasses);
    CleanedOnlyClears(Cycles(t, w, h, s.morphPasses), w, h, s.smallArtifactPx);
  }

  /** With no morphology and no island removal, a pixel stays opaque exactly when its
      colour is farther than the threshold from the border's median colour. */
  lemma FinalPlain(data: seq<Byte>, w: nat, h: nat, s: Settings, m: LabMath, p: int)
    requires |data| == 4 * (w * h) && s.morphPasses <= 0 && s.smallArtifactPx <= 0
    requires 0 <= p < w * h
    ensures FinalMask(data, w, h, s, m)[p] == FG <==>
      !Near(PixelLab(data, p, m), Background(data, w, h, s, m), s.threshold)
  {
    var isBg := Classify(data, w, h, Background(data, w, h, s, m), s.threshold, m);
    CleanedNothing(Threshold(isBg), w, h, s.smallArtifactPx);
  }

  /** Steps 1 to 5 and the debug image. The image's colour bytes are untouched, its
      alpha becomes the final mask, and with `debug` the grey mask image is returned
      too. */
  method RemoveBackground(data: array<Byte>, w: nat, h: nat, opts: Options, m: LabMath)
    returns (mask: array<int>, debugImage: Option<array<Byte>>)
    requires data.Length == 4 * (w * h)
    modifies data
    ensures fresh(mask) && mask[..] == FinalMask(old(data[..]), w, h, Resolve(opts), m)
    ensures Binary(mask[..]) && AlphaFrom(data[..], old(data[..]), mask[..])
    ensures debugImage.Some? <==> Resolve(opts).debug
    ensures debugImage.Some? ==> fresh(debugImage.value) && Grey(debugImage.value[..], mask[..])
  {
    ghost var d0 := data[..];
    var s := Resolve(opts);
    // Step 1: background colour from the border ring
    var labs := BorderLabs(data[..], w, h, s.borderSize, m);
    var bgLab := BackgroundLab(labs, m);
    var isBg := Classify(data[..], w, h, bgLab, s.threshold, m);
    // Step 2: flood fill from the border
    mask := FillMask(isBg, w, h, s.borderSize);
    // Step 3: opening and closing
    Morphology(mask, w, h, s.morphPasses);
    // Step 4: small islands
    if s.smallArtifactPx > 0 {
      RemoveSmallArtifacts(mask, w, h, s.smallArtifactPx);
    } else {
      CleanedNothing(mask[..], w, h, s.smallArtifactPx);
    }
    assert mask[..] == FinalMask(d0, w, h, s, m);
    FinalBinary(d0, w, h, s, m);
    // Step 5: alpha
    ApplyAlpha(data, mask);
    if s.debug {
      var img := MaskImage(mask, w, h);
      debugImage := Some(img);
    } else {
      debugImage := None;
    }
  }
}
