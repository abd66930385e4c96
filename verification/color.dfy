/**
 * The palette generator's string logic: hex normalisation, the harmony offset table,
 * the grayscale fallback, the de-duplicated and padded harmony list, and the export
 * formats. The floating-point conversions `rgbToHsl` and `hexFromHsl` are supplied as
 * functions (`Conversions`) and are not modelled.
 */
module Color {
  import opened Js
  import opened Utils

  /** `rgbToHsl` and `hexFromHsl(h, s, l)`, whose floating-point bodies are not modelled. */
  datatype Conversions = Conversions(rgbToHsl: Rgb -> Hsl, hexFromHsl: (int, int, int) -> string)

  // ---------------------------------------------------------------------------
  // normalizeHex
  // ---------------------------------------------------------------------------

  /** A canonical colour: '#' and six lowercase hex digits. */
  predicate IsNormalHex(s: string)
  {
    |s| == 7 && s[0] == '#' && forall i :: 1 <= i < 7 ==> IsLowerHex(s[i])
  }

  /** `normalizeHex(h)`: trim, lowercase, prefix a missing '#', parse, and re-format as
      `#rrggbb`; None for the empty string or text that does not parse. */
  function NormalizeHex(h: string): (r: Option<string>)
    ensures r.Some? ==> IsNormalHex(r.value)
    ensures r.Some? ==> exists c :: ValidRgb(c) && r.value == RgbToHex(c) && HexToRgb(HashPrefixed(h)) == Some(c)
    ensures r.None? <==> h == [] || HexToRgb(HashPrefixed(h)).None?
  {
    if h == [] then None
    else
      match HexToRgb(HashPrefixed(h))
      case None => None
      case Some(c) =>
        LowerNormal(RgbToHex(c));
        Some(ToLower(RgbToHex(c)))
  }

  /** The trimmed, lowercased text with a '#' put in front when it lacks one. */
  function HashPrefixed(h: string): (r: string)
    ensures r != [] && r[0] == '#'
  {
    var t := ToLower(Trim(h));
    if t != [] && t[0] == '#' then t else "#" + t
  }

  /** Lowercasing leaves a canonical colour as it is. */
  lemma LowerNormal(s: string)
    requires IsNormalHex(s)
    ensures ToLower(s) == s
  {
  }

  /** Normalising a normalised colour gives it back. */
  lemma NormalizeHexIdempotent(h: string)
    requires NormalizeHex(h).Some?
    ensures NormalizeHex(NormalizeHex(h).value) == NormalizeHex(h)
  {
    var s := NormalizeHex(h).value;
    var c :| ValidRgb(c) && s == RgbToHex(c) && HexToRgb(HashPrefixed(h)) == Some(c);
    NormalTextPrefixed(s);
    HexRoundTrip(c);
  }

  /** A canonical colour is already trimmed, lowercase and '#'-prefixed. */
  lemma NormalTextPrefixed(s: string)
    requires IsNormalHex(s)
    ensures HashPrefixed(s) == s
  {
    assert IsLowerHex(s[6]);
    TrimNoop(s);
    LowerNormal(s);
  }

  /** What `normalizeHex` accepts: after trimming, an optional '#' and 3 or 6 hex
      digits of either case — the same texts `hexToRgb` accepts. */
  lemma NormalizeHexAccepts(h: string)
    ensures NormalizeHex(h).Some? <==> h != [] && HexShape(Trim(h))
  {
    if h != [] {
      var t := Trim(h);
      var lt := ToLower(t);
      var p := HashPrefixed(h);
      LowerKeepsEnds(t);
      PrefixedTrimmed(lt, p);
      assert StripHash(p) == ToLower(StripHash(t));
      LowerKeepsDigits(StripHash(t));
    }
  }

  /** Lowercasing a trimmed text keeps it trimmed and keeps a leading '#'. */
  lemma LowerKeepsEnds(t: string)
    requires t != [] ==> !IsSpace(t[0]) && !IsSpace(t[|t| - 1])
    ensures var lt := ToLower(t); lt != [] ==> !IsSpace(lt[0]) && !IsSpace(lt[|lt| - 1])
    ensures var lt := ToLower(t); (t != [] && t[0] == '#') <==> (lt != [] && lt[0] == '#')
  {
  }

  /** Putting '#' before a trimmed text leaves nothing for `trim` to remove. */
  lemma PrefixedTrimmed(lt: string, p: string)
    requires lt != [] ==> !IsSpace(lt[0]) && !IsSpace(lt[|lt| - 1])
    requires p == (if lt != [] && lt[0] == '#' then lt else "#" + lt)
    ensures Trim(p) == p
  {
    TrimNoop(p);
  }

  /** Lowercasing changes neither which characters are hex digits nor the count. */
  lemma LowerKeepsDigits(u: string)
    ensures |ToLower(u)| == |u|
    ensures AllDigits(ToLower(u), 16) <==> AllDigits(u, 16)
  {
    var lu := ToLower(u);
    assert forall i :: 0 <= i < |u| ==> (IsDigit(lu[i], 16) <==> IsDigit(u[i], 16));
  }

  // ---------------------------------------------------------------------------
  // Harmony offsets, grayscale fallback
  // ---------------------------------------------------------------------------

  /** `offsetsFor(mode)`: the hue offsets of each harmony mode, `[0]` otherwise. A mode
      naming a property every object inherits (`constructor`, `toString`) would look up
      a function in the table rather than `[0]`; the mode menu never offers one, so the
      model gives those `[0]` like any other unknown mode. */
  function OffsetsFor(mode: string): (r: seq<int>)
    ensures r != [] && r[0] in {-30, 0}
    ensures forall i :: 0 <= i < |r| ==> -30 <= r[i] < 360
  {
    if mode == "analogous" then [-30, 0, 30]
    else if mode == "complementary" then [0, 180]
    else if mode == "split" then [0, 150, 210]
    else if mode == "triadic" then [0, 120, 240]
    else if mode == "tetradic" then [0, 90, 180, 270]
    else if mode == "monochrome" then [0]
    else [0]
  }

  /** Every mode's offsets include 0, the base hue itself. */
  lemma OffsetsIncludeBase(mode: string)
    ensures 0 in OffsetsFor(mode)
  {
  }

  /** An unknown mode gets the single offset 0. */
  lemma OffsetsUnknown(mode: string)
    requires mode !in {"analogous", "complementary", "split", "triadic", "tetradic", "monochrome"}
    ensures OffsetsFor(mode) == [0]
  {
  }

  /** `isGray(hsl)`: saturation at most 1. */
  predicate IsGray(c: Hsl)
  {
    c.s <= 1
  }

  const GrayDeltas: seq<int> := [-24, -12, 0, 12, 24]

  /** The five lightness steps of `grayscaleSet`: base lightness moved by each delta
      and clamped into [5, 95]. */
  function GraySteps(l: int): (r: seq<int>)
    ensures |r| == 5
    ensures forall i :: 0 <= i < 5 ==> 5 <= r[i] <= 95
    ensures forall i :: 0 <= i < 5 && 5 <= l + GrayDeltas[i] <= 95 ==> r[i] == l + GrayDeltas[i]
    ensures forall i :: 0 <= i < 5 && l + GrayDeltas[i] < 5 ==> r[i] == 5
    ensures forall i :: 0 <= i < 5 && l + GrayDeltas[i] > 95 ==> r[i] == 95
    ensures forall i, j :: 0 <= i <= j < 5 ==> r[i] <= r[j]
  {
    seq(5, i requires 0 <= i < 5 => Clamp(l + GrayDeltas[i], 5, 95))
  }

  /** `grayscaleSet(hex)`: the base's hue and saturation at each lightness step. */
  function GrayscaleSet(base: Rgb, conv: Conversions): (r: seq<string>)
    ensures |r| == 5
    ensures var hsl := conv.rgbToHsl(base);
      forall i :: 0 <= i < 5 ==> r[i] == conv.hexFromHsl(hsl.h, hsl.s, GraySteps(hsl.l)[i])
  {
    var hsl := conv.rgbToHsl(base);
    var steps := GraySteps(hsl.l);
    seq(5, i requires 0 <= i < 5 => conv.hexFromHsl(hsl.h, hsl.s, steps[i]))
  }

  /** The rotated candidates: each offset applied to the base hue, then normalised;
      a candidate that does not normalise is the empty (falsy) string. */
  function Rotated(hsl: Hsl, offs: seq<int>, conv: Conversions): (r: seq<string>)
    ensures |r| == |offs|
    ensures forall i :: 0 <= i < |offs| ==> r[i] == [] || IsNormalHex(r[i])
  {
    seq(|offs|, i requires 0 <= i < |offs| => RotatedBy(hsl, offs[i], conv))
  }

  /** `normalizeHex(hexFromHsl(rotateHue(h, d), s, l))`, with null as the empty string. */
  function RotatedBy(hsl: Hsl, d: int, conv: Conversions): (r: string)
    ensures r == [] || IsNormalHex(r)
  {
    match NormalizeHex(conv.hexFromHsl(RotateHue(hsl.h, d), hsl.s, hsl.l))
    case None => []
    case Some(x) => x
  }

  // ---------------------------------------------------------------------------
  // The de-duplicated, padded harmony list
  // ---------------------------------------------------------------------------

  /** The list's `push`: append a non-empty entry that is not already present. */
  function Push(u: seq<string>, h: string): (r: seq<string>)
    ensures h != [] && h !in u ==> r == u + [h]
    ensures h == [] || h in u ==> r == u
  {
    if h != [] && h !in u then u + [h] else u
  }

  /** `xs.forEach(push)` starting from u. */
  function PushAll(u: seq<string>, xs: seq<string>): seq<string>
  {
    if xs == [] then u else Push(PushAll(u, xs[..|xs| - 1]), xs[|xs| - 1])
  }

  predicate NoDuplicates(u: seq<string>)
  {
    forall i, j :: 0 <= i < j < |u| ==> u[i] != u[j]
  }

  /** Pushing keeps what was there, adds no duplicate, and adds exactly the non-empty
      entries that were missing. */
  lemma {:induction false} PushAllSpec(u: seq<string>, xs: seq<string>)
    requires NoDuplicates(u)
    ensures var r := PushAll(u, xs);
      NoDuplicates(r) && |u| <= |r| && r[..|u|] == u &&
      (forall h :: h in r <==> h in u || (h != [] && h in xs))
  {
    if xs != [] {
      var init, x := xs[..|xs| - 1], xs[|xs| - 1];
      PushAllSpec(u, init);
      var r := PushAll(u, init);
      assert xs == init + [x];
      assert forall h :: h in xs <==> h in init || h == x;
      if x != [] && x !in r {
        PushFresh(r, x);
        assert (r + [x])[..|u|] == r[..|u|];
      }
    }
  }

  /** Appending a missing entry keeps a list free of repeats. */
  lemma PushFresh(r: seq<string>, x: string)
    requires NoDuplicates(r) && x !in r
    ensures NoDuplicates(r + [x])
    ensures forall h :: h in r + [x] <==> h in r || h == x
  {
  }

  /** `while (uniq.length < 5) uniq.push(base)`. */
  function Pad(u: seq<string>, base: string): (r: seq<string>)
    ensures |r| == Max(|u|, 5) && r[..|u|] == u
    ensures forall i :: |u| <= i < |r| ==> r[i] == base
  {
    u + seq(Max(|u|, 5) - |u|, _ => base)
  }

  /** The list `harmonySet(hex, mode)` returns: empty when the base does not
      normalise; otherwise the base first, then the candidates without empty entries
      or repeats, padded with the base to at least five entries. */
  function HarmonyList(hex: string, mode: string, conv: Conversions): seq<string>
  {
    match NormalizeHex(hex)
    case None => []
    case Some(base) => Pad(PushAll([base], Candidates(base, mode, conv)), base)
  }

  /** `harmonySet(hex, mode)`. */
  method HarmonySet(hex: string, mode: string, conv: Conversions) returns (uniq: seq<string>)
    ensures uniq == HarmonyList(hex, mode, conv)
  {
    var baseHex := NormalizeHex(hex);
    if baseHex.None? {
      return [];
    }
    var base := baseHex.value;
    var cands := Candidates(base, mode, conv);
    uniq := PushEach([base], cands);
    uniq := PadToFive(uniq, base);
  }

  /** `xs.forEach(push)`. */
  method PushEach(u: seq<string>, xs: seq<string>) returns (r: seq<string>)
    ensures r == PushAll(u, xs)
  {
    r := u;
    var i := 0;
    while i < |xs|
      invariant 0 <= i <= |xs|
      invariant r == PushAll(u, xs[..i])
    {
      assert xs[..i + 1][..i] == xs[..i];
      r := Push(r, xs[i]);
      i := i + 1;
    }
    assert xs[..|xs|] == xs;
  }

  /** `while (uniq.length < 5) uniq.push(base)`. */
  method PadToFive(u: seq<string>, base: string) returns (r: seq<string>)
    ensures r == Pad(u, base)
  {
    r := u;
    while |r| < 5
      invariant |u| <= |r| <= Max(|u|, 5) && r[..|u|] == u
      invariant forall k :: |u| <= k < |r| ==> r[k] == base
      decreases 5 - |r|
    {
      r := r + [base];
    }
  }

  /** The entries offered after the base: the grayscale steps when the base's
      saturation is at most 1, else the rotated hues of the mode. */
  function Candidates(base: string, mode: string, conv: Conversions): (r: seq<string>)
  {
    match HexToRgb(base)
    case None => []
    case Some(rgb) =>
      var hsl := conv.rgbToHsl(rgb);
      if IsGray(hsl) then GrayscaleSet(rgb, conv) else Rotated(hsl, OffsetsFor(mode), conv)
  }

  /** The shape of a harmony list built from `base` and `cands`: the base first, at
      least five entries, a prefix of length n without repeats holding exactly the base
      and the non-empty candidates, and after it (only when n < 5) copies of the base. */
  ghost predicate HarmonyShaped(base: string, cands: seq<string>, uniq: seq<string>)
  {
    |uniq| >= 5 && uniq[0] == base &&
    exists n :: 1 <= n <= |uniq| && NoDuplicates(uniq[..n]) && (n < |uniq| ==> n < 5) &&
      (forall k :: n <= k < |uniq| ==> uniq[k] == base) &&
      (forall h :: h in uniq[..n] <==> h == base || (h != [] && h in cands))
  }

  /** What the harmony list promises for a base that normalises. */
  lemma HarmonyListShape(hex: string, mode: string, conv: Conversions)
    requires NormalizeHex(hex).Some?
    ensures var base := NormalizeHex(hex).value;
      HarmonyShaped(base, Candidates(base, mode, conv), HarmonyList(hex, mode, conv))
  {
    var base := NormalizeHex(hex).value;
    var cands := Candidates(base, mode, conv);
    assert HarmonyList(hex, mode, conv) == Pad(PushAll([base], cands), base);
    ShapeOf(base, cands);
  }

  lemma ShapeOf(base: string, cands: seq<string>)
    requires base != []
    ensures HarmonyShaped(base, cands, Pad(PushAll([base], cands), base))
  {
    var pushed := PushAll([base], cands);
    PushAllSpec([base], cands);
    var uniq := Pad(pushed, base);
    assert uniq[..|pushed|] == pushed;
    assert uniq[0] == pushed[0] == base;
  }

  // ---------------------------------------------------------------------------
  // Export formats
  // ---------------------------------------------------------------------------

  /** `x.replace('#', '').toLowerCase()`: the palette's `hexes()` entry. */
  function BareHex(x: string): string
  {
    ToLower(RemoveFirst(x, '#'))
  }

  /** A canonical colour loses its '#' and nothing else. */
  lemma BareHexNormal(x: string)
    requires IsNormalHex(x)
    ensures BareHex(x) == x[1..]
  {
    assert forall i :: 0 <= i < 6 ==> IsLowerHex(x[1..][i]);
  }

  function BareHexes(arr: seq<string>): (r: seq<string>)
    ensures |r| == |arr| && forall i :: 0 <= i < |arr| ==> r[i] == BareHex(arr[i])
  {
    seq(|arr|, i requires 0 <= i < |arr| => BareHex(arr[i]))
  }

  /** One `  --color-N: h;` line of the css export (N counts from 1). */
  function CssLine(i: nat, h: string): string
  {
    "  --color-" + IntToString(i + 1) + ": " + h + ";"
  }

  function CssLines(arr: seq<string>): (r: seq<string>)
    ensures |r| == |arr| && forall i :: 0 <= i < |arr| ==> r[i] == CssLine(i, arr[i])
  {
    seq(|arr|, i requires 0 <= i < |arr| => CssLine(i, arr[i]))
  }

  /** `o[names[i] || 'Color ' + (i + 1)]`: the key of entry i in the object export. */
  function ObjectKey(i: nat): string
  {
    var names := ["Yale Blue", "Berkeley Blue", "Oxford Blue", "Powder blue", "Mint cream"];
    if i < |names| then names[i] else "Color " + IntToString(i + 1)
  }

  function ObjectMembers(arr: seq<string>): (r: seq<string>)
    ensures |r| == |arr|
  {
    seq(|arr|, i requires 0 <= i < |arr| => JsonQuote(ObjectKey(i)) + ":" + JsonQuote(RemoveFirst(arr[i], '#')))
  }

  /** One member of the tailwind export, as `JSON.stringify(obj, null, 2)` lays it out. */
  function TailwindMember(i: nat, h: string): string
  {
    "  " + JsonQuote("color_" + IntToString(i + 1)) + ": {\n    " + JsonQuote("DEFAULT") + ": " + JsonQuote(h) + "\n  }"
  }

  function TailwindMembers(arr: seq<string>): (r: seq<string>)
    ensures |r| == |arr|
  {
    seq(|arr|, i requires 0 <= i < |arr| => TailwindMember(i, arr[i]))
  }

  /** One `<color .../>` element of the xml export; None where `hexToRgb` gives null
      and the JavaScript would throw reading `r.r`. */
  function XmlLine(h: string): (r: Option<string>)
    ensures r.None? <==> HexToRgb(h).None?
  {
    match HexToRgb(h)
    case None => None
    case Some(c) =>
      Some("  <color name=\"\" hex=\"" + RemoveFirst(h, '#') + "\" r=\"" + IntToString(c.r) +
           "\" g=\"" + IntToString(c.g) + "\" b=\"" + IntToString(c.b) + "\" />")
  }

  function XmlLines(arr: seq<string>): (r: Option<seq<string>>)
    ensures r.Some? <==> forall i :: 0 <= i < |arr| ==> XmlLine(arr[i]).Some?
    ensures r.Some? ==> |r.value| == |arr| && forall i :: 0 <= i < |arr| ==> r.value[i] == XmlLine(arr[i]).value
  {
    if arr == [] then Some([])
    else
      match XmlLine(arr[0])
      case None => None
      case Some(first) =>
        match XmlLines(arr[1..])
        case None => None
        case Some(rest) => Some([first] + rest)
  }

  /** `exportText()` for every format but `extended`; None where the JavaScript throws
      (an `xml` export with an entry `hexToRgb` rejects). */
  function ExportText(fmt: string, arr: seq<string>): (r: Option<string>)
    requires fmt != "extended"
    ensures fmt != "xml" ==> r.Some?
    ensures fmt == "csv" ==> r == Some(Join(BareHexes(arr), ","))
    ensures fmt == "csvhash" ==> r == Some(Join(arr, ", "))
    ensures fmt !in {"css", "widget", "tailwind", "csv", "csvhash", "array", "object", "xml"} ==> r == Some("")
  {
    if fmt == "css" then Some(":root{\n" + Join(CssLines(arr), "\n") + "\n}")
    else if fmt == "widget" then Some("/* Embeddable */\n(function(w){ w.CreativityPalette=" + JsonArray(arr) + "; })(window);")
    else if fmt == "tailwind" then Some(if arr == [] then "{}" else "{\n" + Join(TailwindMembers(arr), ",\n") + "\n}")
    else if fmt == "csv" then Some(Join(BareHexes(arr), ","))
    else if fmt == "csvhash" then Some(Join(arr, ", "))
    else if fmt == "array" then Some(JsonArray(BareHexes(arr)))
    else if fmt == "object" then Some("{" + Join(ObjectMembers(arr), ",") + "}")
    else if fmt == "xml" then
      match XmlLines(arr)
      case None => None
      case Some(lines) => Some("<palette>\n" + Join(lines, "\n") + "\n</palette>")
    else Some("")
  }

  /** For a palette of canonical colours, splitting the csv export on commas gives back
      each colour without its '#'. */
  lemma CsvRoundTrip(arr: seq<string>)
    requires arr != [] && forall x :: x in arr ==> IsNormalHex(x)
    ensures var parts := Split(ExportText("csv", arr).value, ',');
      |parts| == |arr| && forall i :: 0 <= i < |arr| ==> "#" + parts[i] == arr[i]
  {
    var bare := BareHexes(arr);
    assert forall i, j :: 0 <= i < |bare| && 0 <= j < |bare[i]| ==> bare[i][j] != ',' by {
      forall i, j | 0 <= i < |bare| && 0 <= j < |bare[i]| ensures bare[i][j] != ',' {
        BareHexNormal(arr[i]);
        assert IsLowerHex(arr[i][j + 1]);
      }
    }
    SplitJoin(bare, ',');
    forall i | 0 <= i < |arr| ensures "#" + bare[i] == arr[i] {
      BareHexNormal(arr[i]);
    }
  }

  /** The css export's lines: `:root{`, one numbered declaration per colour, `}`. */
  lemma CssExportLines(arr: seq<string>)
    requires arr != [] && forall i, j :: 0 <= i < |arr| && 0 <= j < |arr[i]| ==> arr[i][j] != '\n'
    ensures Split(ExportText("css", arr).value, '\n') == [":root{"] + CssLines(arr) + ["}"]
  {
    var lines := CssLines(arr);
    var all := [":root{"] + lines + ["}"];
    forall i, j | 0 <= i < |all| && 0 <= j < |all[i]| ensures all[i][j] != '\n' {
      if 0 < i < |all| - 1 {
        CssLineNoNewline(i - 1, arr[i - 1], j);
      }
    }
    JoinAround(":root{", lines, "}", "\n");
    assert ExportText("css", arr).value == ":root{" + "\n" + Join(lines, "\n") + "\n" + "}";
    SplitJoin(all, '\n');
  }

  lemma CssLineNoNewline(i: nat, h: string, j: nat)
    requires forall k :: 0 <= k < |h| ==> h[k] != '\n'
    requires j < |CssLine(i, h)|
    ensures CssLine(i, h)[j] != '\n'
  {
    var n := IntToString(i + 1);
    assert forall k :: 0 <= k < |n| ==> n[k] != '\n' by {
      assert n == NatToDigits(i + 1, 10);
    }
    var p := "  --color-" + n + ": ";
    assert CssLine(i, h) == p + h + ";";
    if j < |p| {
      if j < 10 {
        assert p[j] == "  --color-"[j];
      } else if j < 10 + |n| {
        assert p[j] == n[j - 10];
      } else {
        assert p[j] == ": "[j - 10 - |n|];
      }
    } else if j < |p| + |h| {
      assert (p + h + ";")[j] == h[j - |p|];
    }
  }

  /** Joining with a first and a last element added. */
  lemma JoinAround(first: string, xs: seq<string>, last: string, sep: string)
    requires xs != []
    ensures Join([first] + xs + [last], sep) == first + sep + Join(xs, sep) + sep + last
  {
    assert ([first] + xs + [last])[1..] == xs + [last];
    JoinSnoc(xs, last, sep);
  }

  lemma {:induction false} JoinSnoc(xs: seq<string>, last: string, sep: string)
    requires xs != []
    ensures Join(xs + [last], sep) == Join(xs, sep) + sep + last
  {
    if |xs| == 1 {
      assert (xs + [last])[1..] == [last];
    } else {
      assert (xs + [last])[1..] == xs[1..] + [last];
      JoinSnoc(xs[1..], last, sep);
    }
  }
}
